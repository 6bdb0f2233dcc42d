/** First-contact introduction: the session transcript, the material one side builds and the checks
    the other side makes, including proof of possession of every advertised key. */
module Introduction {
  import opened Json
  import opened Ordering
  import opened Ascii
  import opened Options
  import opened Crypto
  import opened KeyBinding
  import opened Jws

  datatype Role = Dialer | Responder

  datatype Transcript = Transcript(protocolVersion: nat, tokenVersion: nat, role: Role, dialerRoot: string,
                                   responderRoot: string, dialerTls: string, responderTls: string,
                                   tlsExporter: string, nonce: string, keyBindingSha256: string)

  datatype Material = Material(keyBinding: Json, card: AgentCard, proofs: map<string, string>)

  // ---- The signed bytes ----

  function RoleJson(role: Role): Json {
    match role case Dialer => Str("dialer") case Responder => Str("responder")
  }

  function TranscriptJson(t: Transcript): (v: Json)
    ensures WellFormed(v)
  {
    Obj(map["protocol_version" := Int(t.protocolVersion), "token_version" := Int(t.tokenVersion),
            "role" := RoleJson(t.role), "dialer_root" := Str(t.dialerRoot), "responder_root" := Str(t.responderRoot),
            "dialer_tls_sha256" := Str(t.dialerTls), "responder_tls_sha256" := Str(t.responderTls),
            "tls_exporter" := Str(t.tlsExporter), "nonce" := Str(t.nonce),
            "key_binding_sha256" := Str(t.keyBindingSha256), "domain" := Str("akson-introduction-v1")])
  }

  function SigningBytes(t: Transcript): string { Canonical(TranscriptJson(t)) }

  lemma VersionFields(t: Transcript)
    ensures Get(TranscriptJson(t), "protocol_version") == Int(t.protocolVersion)
    ensures Get(TranscriptJson(t), "token_version") == Int(t.tokenVersion)
    ensures Get(TranscriptJson(t), "role") == RoleJson(t.role)
  {
  }

  lemma PartyFields(t: Transcript)
    ensures Get(TranscriptJson(t), "dialer_root") == Str(t.dialerRoot)
    ensures Get(TranscriptJson(t), "responder_root") == Str(t.responderRoot)
    ensures Get(TranscriptJson(t), "dialer_tls_sha256") == Str(t.dialerTls)
    ensures Get(TranscriptJson(t), "responder_tls_sha256") == Str(t.responderTls)
  {
  }

  lemma SessionFields(t: Transcript)
    ensures Get(TranscriptJson(t), "tls_exporter") == Str(t.tlsExporter)
    ensures Get(TranscriptJson(t), "nonce") == Str(t.nonce)
    ensures Get(TranscriptJson(t), "key_binding_sha256") == Str(t.keyBindingSha256)
  {
  }

  /** Exactly these members are signed, under a domain of their own. */
  lemma TranscriptMembers(t: Transcript)
    ensures TranscriptJson(t).Obj? && TranscriptJson(t).members.Keys ==
      {"protocol_version", "token_version", "role", "dialer_root", "responder_root", "dialer_tls_sha256",
       "responder_tls_sha256", "tls_exporter", "nonce", "key_binding_sha256", "domain"}
    ensures Get(TranscriptJson(t), "domain") == Str("akson-introduction-v1")
    ensures Get(TranscriptJson(t), "role") == Str(if t.role.Dialer? then "dialer" else "responder")
  {
  }

  lemma JsonNamesTranscript(t: Transcript, u: Transcript, v: Json, w: Json)
    requires v == TranscriptJson(t) && w == TranscriptJson(u) && v == w
    ensures t == u
  {
    VersionFields(t); VersionFields(u);
    PartyFields(t); PartyFields(u);
    SessionFields(t); SessionFields(u);
    IntIsInjective(t.protocolVersion, u.protocolVersion);
    IntIsInjective(t.tokenVersion, u.tokenVersion);
    RoleIsNamed(t.role, u.role);
  }

  lemma RoleIsNamed(r: Role, s: Role)
    requires RoleJson(r) == RoleJson(s)
    ensures r == s
  {
  }

  /** Two transcripts never share their signed bytes. */
  lemma SigningBytesIsInjective(t: Transcript, u: Transcript)
    requires SigningBytes(t) == SigningBytes(u)
    ensures t == u
  {
    CanonicalIsInjective(TranscriptJson(t), TranscriptJson(u));
    JsonNamesTranscript(t, u, TranscriptJson(t), TranscriptJson(u));
  }

  // ---- Proof of possession ----

  datatype PopError = MissingProof(purpose: string) | Malformed(purpose: string) | BadProof(purpose: string)
    | UnexpectedProof(purpose: string) | UnusableJwk(purpose: string)

  function ProofError(lib: Lib, message: string, purpose: string, entry: KeyEntry,
                      proofs: map<string, string>): Option<PopError> {
    if purpose !in proofs then Some(MissingProof(purpose))
    else
      var signature, key := ReadSignature(lib, proofs[purpose]), ToKey(lib, entry.jwk);
      if signature.None? then Some(Malformed(purpose))
      else if key.None? then Some(UnusableJwk(purpose))
      else if !VerifyStrict(lib, key.value, message, signature.value) then Some(BadProof(purpose))
      else None
  }

  /** Each refusal of a proof has one cause. */
  lemma ProofRefusals(lib: Lib, message: string, purpose: string, entry: KeyEntry, proofs: map<string, string>)
    ensures ProofError(lib, message, purpose, entry, proofs) == Some(MissingProof(purpose)) <==> purpose !in proofs
    ensures purpose in proofs ==>
      var r, s := ProofError(lib, message, purpose, entry, proofs), ReadSignature(lib, proofs[purpose]);
      && (r == Some(Malformed(purpose)) <==> s.None?)
      && (r == Some(UnusableJwk(purpose)) <==> s.Some? && ToKey(lib, entry.jwk).None?)
      && (r == Some(BadProof(purpose)) <==>
            && s.Some? && ToKey(lib, entry.jwk).Some?
            && !(lib.strong(s.value.key) && s.value == Signature(ToKey(lib, entry.jwk).value, message)))
      && (r.None? <==>
            && s.Some? && ToKey(lib, entry.jwk) == Some(s.value.key) && s.value.message == message
            && lib.strong(s.value.key))
  {
  }

  /** The first advertised purpose, in order, without a valid proof. */
  function FirstProofError(lib: Lib, message: string, keys: map<string, KeyEntry>, order: seq<string>,
                           proofs: map<string, string>): Option<PopError>
    requires forall p :: p in order ==> p in keys
  {
    if order == [] then None
    else
      var e := ProofError(lib, message, order[0], keys[order[0]], proofs);
      if e.Some? then e else FirstProofError(lib, message, keys, order[1..], proofs)
  }

  /** The first proof, in order, for a purpose not advertised. */
  function FirstUnexpected(keys: map<string, KeyEntry>, order: seq<string>): Option<PopError> {
    if order == [] then None
    else if order[0] !in keys then Some(UnexpectedProof(order[0]))
    else FirstUnexpected(keys, order[1..])
  }

  function VerifyProofsOver(lib: Lib, keys: map<string, KeyEntry>, message: string,
                            proofs: map<string, string>): Option<PopError> {
    var e := FirstProofError(lib, message, keys, SortedKeys(keys.Keys), proofs);
    if e.Some? then e else FirstUnexpected(keys, SortedKeys(proofs.Keys))
  }

  /** The proof text is a strict signature by this entry's key over the message. */
  predicate Proves(lib: Lib, message: string, entry: KeyEntry, proof: string) {
    var key := ToKey(lib, entry.jwk);
    key.Some? && lib.strong(key.value) && ReadSignature(lib, proof) == Some(Signature(key.value, message))
  }

  lemma {:induction false} NoProofErrorMeans(lib: Lib, message: string, keys: map<string, KeyEntry>,
                                             order: seq<string>, proofs: map<string, string>)
    requires forall p :: p in order ==> p in keys
    ensures FirstProofError(lib, message, keys, order, proofs).None? <==>
      forall p :: p in order ==> p in proofs && Proves(lib, message, keys[p], proofs[p])
  {
    if order != [] {
      NoProofErrorMeans(lib, message, keys, order[1..], proofs);
      assert forall p :: p in order <==> p == order[0] || p in order[1..];
    }
  }

  lemma {:induction false} NoUnexpectedMeans(keys: map<string, KeyEntry>, order: seq<string>)
    ensures FirstUnexpected(keys, order).None? <==> forall p :: p in order ==> p in keys
  {
    if order != [] {
      NoUnexpectedMeans(keys, order[1..]);
      assert forall p :: p in order <==> p == order[0] || p in order[1..];
    }
  }

  lemma AllProved(lib: Lib, keys: map<string, KeyEntry>, message: string, proofs: map<string, string>)
    ensures FirstProofError(lib, message, keys, SortedKeys(keys.Keys), proofs).None? <==>
      keys.Keys <= proofs.Keys && forall p :: p in keys && p in proofs ==> Proves(lib, message, keys[p], proofs[p])
  {
    NoProofErrorMeans(lib, message, keys, SortedKeys(keys.Keys), proofs);
  }

  lemma NoneUnexpected(keys: map<string, KeyEntry>, proofs: map<string, string>)
    ensures FirstUnexpected(keys, SortedKeys(proofs.Keys)).None? <==> proofs.Keys <= keys.Keys
  {
    NoUnexpectedMeans(keys, SortedKeys(proofs.Keys));
  }

  /** Proofs are accepted exactly when the advertised purposes are the proved ones and each key
      signed the message. */
  lemma AcceptedProofs(lib: Lib, keys: map<string, KeyEntry>, message: string, proofs: map<string, string>)
    ensures VerifyProofsOver(lib, keys, message, proofs).None? <==>
      proofs.Keys == keys.Keys && forall p :: p in keys && p in proofs ==> Proves(lib, message, keys[p], proofs[p])
  {
    AllProved(lib, keys, message, proofs);
    NoneUnexpected(keys, proofs);
  }

  // ---- Building ----

  /** A key bound to one purpose, by the purpose's name. */
  datatype PurposeKey = PurposeKey(purpose: string, key: Key)

  /** The inputs of one build, apart from the already signed card. */
  datatype Build = Build(transcript: Transcript, subject: Identity, keys: map<string, PurposeKey>,
                         notBefore: string, notAfter: string, generation: nat)

  /** The signer's own certificate digest, by role. */
  function TlsOfSigner(t: Transcript): string {
    match t.role case Dialer => t.dialerTls case Responder => t.responderTls
  }

  function OwnEntry(lib: Lib, b: Build, key: Key): KeyEntry {
    KeyEntry(FromKey(lib, key), Thumbprint(lib, FromKey(lib, key)), b.generation, b.notBefore, b.notAfter)
  }

  function OwnSet(lib: Lib, b: Build): KeyBindingSet {
    KeyBindingSet(1, b.subject, TlsOfSigner(b.transcript), Filed(b.keys, key => OwnEntry(lib, b, key)))
  }

  function Record(lib: Lib, b: Build): Json { SetJson(OwnSet(lib, b)) }

  /** The dialer presents the dialer's certificate and the responder the responder's. */
  lemma SignerPresentsItsOwn(t: Transcript)
    ensures t.role == Dialer ==> TlsOfSigner(t) == t.dialerTls
    ensures t.role == Responder ==> TlsOfSigner(t) == t.responderTls
  {
  }

  /** The transcript with a record's digest bound in. */
  function Bound(lib: Lib, t: Transcript, record: Json): Transcript {
    t.(keyBindingSha256 := lib.sha(Canonical(record)))
  }

  function ProofMessage(lib: Lib, b: Build): string { SigningBytes(Bound(lib, b.transcript, Record(lib, b))) }

  function ProofText(lib: Lib, key: Key, message: string): string {
    lib.urlSafeNoPad.encode(lib.sigBytes(Signature(key, message)))
  }

  function OwnMaterial(lib: Lib, b: Build, card: AgentCard): Material {
    Material(Record(lib, b), card, Filed(b.keys, key => ProofText(lib, key, ProofMessage(lib, b))))
  }

  datatype Error = BadKeyBinding(cause: KeyBinding.Error) | TlsCertificateMismatch | NoAgentCardKey | RootMismatch
    | CardSignature | CardProfile | ProofOfPossession(pop: PopError) | BuildFailed

  datatype BuildResult = Built(material: Material) | NotBuilt(error: Error)

  /** The source's two loops over the keys: first the record's entries, then the proofs. A key filed
      under a purpose it is not bound to stops the build. */
  method BuildMaterial(lib: Lib, b: Build, card: AgentCard) returns (r: BuildResult)
    ensures r == if forall p :: p in b.keys ==> b.keys[p].purpose == p then Built(OwnMaterial(lib, b, card))
      else NotBuilt(BuildFailed)
  {
    var order := SortedKeys(b.keys.Keys);
    var entries := BuildEntries(b.keys, order, key => OwnEntry(lib, b, key));
    var record := SetJson(KeyBindingSet(1, b.subject, TlsOfSigner(b.transcript), entries));
    var message := SigningBytes(Bound(lib, b.transcript, record));
    var proofs := BuildProofs(b.keys, order, key => ProofText(lib, key, message));
    r := if proofs.None? then NotBuilt(BuildFailed) else Built(Material(record, card, proofs.value));
  }

  /** One value per key, filed under the key's purpose. */
  function Filed<T>(keys: map<string, PurposeKey>, value: Key -> T): map<string, T> {
    map p | p in keys :: value(keys[p].key)
  }

  method BuildEntries<T>(keys: map<string, PurposeKey>, order: seq<string>, entry: Key -> T)
      returns (entries: map<string, T>)
    requires forall p :: p in order <==> p in keys
    ensures entries == Filed(keys, entry)
  {
    entries := map[];
    for i := 0 to |order|
      invariant forall p :: p in entries <==> p in order[..i]
      invariant forall p :: p in entries ==> entries[p] == entry(keys[p].key)
    {
      entries := entries[order[i] := entry(keys[order[i]].key)];
    }
    assert order[..|order|] == order;
  }

  method BuildProofs<T>(keys: map<string, PurposeKey>, order: seq<string>, prove: Key -> T)
      returns (proofs: Option<map<string, T>>)
    requires forall p :: p in order <==> p in keys
    ensures proofs == if forall p :: p in keys ==> keys[p].purpose == p then Some(Filed(keys, prove)) else None
  {
    var made: map<string, T> := map[];
    for i := 0 to |order|
      invariant forall p :: p in order[..i] ==> keys[p].purpose == p
      invariant forall p :: p in made <==> p in order[..i]
      invariant forall p :: p in made ==> made[p] == prove(keys[p].key)
    {
      if keys[order[i]].purpose != order[i] {
        return None;
      }
      made := made[order[i] := prove(keys[order[i]].key)];
    }
    assert order[..|order|] == order;
    assert made == Filed(keys, prove);
    proofs := Some(made);
  }

  // ---- Verifying ----

  datatype Outcome = Accepted(bindings: KeyBindingSet, root: string) | Refused(error: Error)

  /** The record's certificate is the connection's, its agent-card key is the imported root, and that
      key signed a card of the right profile. */
  function PartyError(lib: Lib, expectedRoot: string, subjectTls: string, bindings: KeyBindingSet, card: AgentCard,
                      profile: AgentCard -> bool): Option<Error> {
    if !EqIgnoreCase(bindings.tls, subjectTls) then Some(TlsCertificateMismatch)
    else if "agent-card" !in bindings.keys then Some(NoAgentCardKey)
    else if bindings.keys["agent-card"].thumbprint != expectedRoot then Some(RootMismatch)
    else
      var key := ToKey(lib, bindings.keys["agent-card"].jwk);
      if key.None? || !VerifyCard(lib, card, key.value) then Some(CardSignature)
      else if !profile(card) then Some(CardProfile)
      else None
  }

  /** Each refusal of the party has one cause, checked in this order. */
  lemma PartyRefusals(lib: Lib, expectedRoot: string, subjectTls: string, b: KeyBindingSet, card: AgentCard,
                      profile: AgentCard -> bool)
    ensures var r := PartyError(lib, expectedRoot, subjectTls, b, card, profile);
      var sameTls, named := Lower(b.tls) == Lower(subjectTls), "agent-card" in b.keys;
      && (r == Some(TlsCertificateMismatch) <==> !sameTls)
      && (r == Some(NoAgentCardKey) <==> sameTls && !named)
      && (sameTls && named ==>
            var entry := b.keys["agent-card"];
            var rooted, key := entry.thumbprint == expectedRoot, ToKey(lib, entry.jwk);
            && (r == Some(RootMismatch) <==> !rooted)
            && (r == Some(CardSignature) <==> rooted && (key == None || !VerifyCard(lib, card, key.value)))
            && (r == Some(CardProfile) <==>
                  rooted && key != None && VerifyCard(lib, card, key.value) && !profile(card))
            && (r == None <==> rooted && key != None && VerifyCard(lib, card, key.value) && profile(card)))
  {
  }

  /** The checks once the record has been verified and the message rebuilt. */
  function Decide(lib: Lib, expectedRoot: string, subjectTls: string, checked: KeyBinding.Result, card: AgentCard,
                  profile: AgentCard -> bool, message: string, proofs: map<string, string>): Outcome {
    if checked.Err? then Refused(BadKeyBinding(checked.error))
    else
      var bindings := checked.set_;
      var party := PartyError(lib, expectedRoot, subjectTls, bindings, card, profile);
      var pop := VerifyProofsOver(lib, bindings.keys, message, proofs);
      if party.Some? then Refused(party.value)
      else if pop.Some? then Refused(ProofOfPossession(pop.value))
      else Accepted(bindings, bindings.keys["agent-card"].thumbprint)
  }

  /** The transcript is the verifier's own; only the record's digest is taken from the material. */
  function VerifyIntroduction(lib: Lib, expectedRoot: string, t: Transcript, subjectTls: string, m: Material,
                              profile: AgentCard -> bool, now: int): Outcome {
    Decide(lib, expectedRoot, subjectTls, KeyBinding.Verify(lib, m.keyBinding, now), m.card, profile,
           SigningBytes(Bound(lib, t, m.keyBinding)), m.proofs)
  }

  lemma DecidedExactly(lib: Lib, expectedRoot: string, subjectTls: string, checked: KeyBinding.Result, card: AgentCard,
                       profile: AgentCard -> bool, message: string, proofs: map<string, string>, b: KeyBindingSet)
    ensures
      Decide(lib, expectedRoot, subjectTls, checked, card, profile, message, proofs) == Accepted(b, expectedRoot) <==>
      && checked == KeyBinding.Ok(b) && PartyError(lib, expectedRoot, subjectTls, b, card, profile).None?
      && VerifyProofsOver(lib, b.keys, message, proofs).None?
  {
    if checked.Ok? {
      PartyExactly(lib, expectedRoot, subjectTls, checked.set_, card, profile);
      Concluded(lib, expectedRoot, subjectTls, checked.set_, card, profile, message, proofs);
    }
  }

  /** A refusal carries the cause of the first check that fails: record, party, proofs. */
  lemma RefusedFor(lib: Lib, expectedRoot: string, subjectTls: string, checked: KeyBinding.Result, card: AgentCard,
                   profile: AgentCard -> bool, message: string, proofs: map<string, string>)
    ensures var r := Decide(lib, expectedRoot, subjectTls, checked, card, profile, message, proofs);
      && (checked.Err? ==> r == Refused(BadKeyBinding(checked.error)))
      && (checked.Ok? ==>
            var party := PartyError(lib, expectedRoot, subjectTls, checked.set_, card, profile);
            var pop := VerifyProofsOver(lib, checked.set_.keys, message, proofs);
            && (party.Some? ==> r == Refused(party.value))
            && (party.None? && pop.Some? ==> r == Refused(ProofOfPossession(pop.value))))
  {
  }

  lemma Concluded(lib: Lib, expectedRoot: string, subjectTls: string, b: KeyBindingSet, card: AgentCard,
                  profile: AgentCard -> bool, message: string, proofs: map<string, string>)
    ensures var r := Decide(lib, expectedRoot, subjectTls, KeyBinding.Ok(b), card, profile, message, proofs);
      if PartyError(lib, expectedRoot, subjectTls, b, card, profile).None? &&
        VerifyProofsOver(lib, b.keys, message, proofs).None?
      then r.Accepted? && r.bindings == b && "agent-card" in b.keys && r.root == b.keys["agent-card"].thumbprint
      else r.Refused?
  {
  }

  /** The root reported is the root expected. */
  lemma RootIsExpected(lib: Lib, expectedRoot: string, subjectTls: string, checked: KeyBinding.Result, card: AgentCard,
                       profile: AgentCard -> bool, message: string, proofs: map<string, string>)
    ensures var r := Decide(lib, expectedRoot, subjectTls, checked, card, profile, message, proofs);
      r.Accepted? ==> r == Accepted(r.bindings, expectedRoot)
  {
  }

  lemma PartyExactly(lib: Lib, expectedRoot: string, subjectTls: string, b: KeyBindingSet, card: AgentCard,
                     profile: AgentCard -> bool)
    ensures PartyError(lib, expectedRoot, subjectTls, b, card, profile).None? <==>
      && EqIgnoreCase(b.tls, subjectTls) && "agent-card" in b.keys && b.keys["agent-card"].thumbprint == expectedRoot
      && ToKey(lib, b.keys["agent-card"].jwk).Some? && VerifyCard(lib, card, ToKey(lib, b.keys["agent-card"].jwk).value)
      && profile(card)
  {
  }

  /** Material is accepted exactly when its record is sound, names this connection's certificate and
      the imported root, the root signed a card of the right profile, and every advertised key, and
      no other, signed the verifier's own transcript with this record's digest bound in. */
  lemma AcceptsExactly(lib: Lib, expectedRoot: string, t: Transcript, subjectTls: string, m: Material,
                       profile: AgentCard -> bool, now: int, b: KeyBindingSet)
    ensures VerifyIntroduction(lib, expectedRoot, t, subjectTls, m, profile, now) == Accepted(b, expectedRoot) <==>
      && KeyBinding.Verify(lib, m.keyBinding, now) == KeyBinding.Ok(b)
      && EqIgnoreCase(b.tls, subjectTls) && "agent-card" in b.keys && b.keys["agent-card"].thumbprint == expectedRoot
      && ToKey(lib, b.keys["agent-card"].jwk).Some? &&
        VerifyCard(lib, m.card, ToKey(lib, b.keys["agent-card"].jwk).value)
      && profile(m.card)
      && m.proofs.Keys == b.keys.Keys
      && forall p :: p in b.keys && p in m.proofs ==>
        Proves(lib, SigningBytes(Bound(lib, t, m.keyBinding)), b.keys[p], m.proofs[p])
  {
    var message := SigningBytes(Bound(lib, t, m.keyBinding));
    DecidedExactly(lib, expectedRoot, subjectTls, KeyBinding.Verify(lib, m.keyBinding, now), m.card, profile, message,
      m.proofs, b);
    PartyExactly(lib, expectedRoot, subjectTls, b, m.card, profile);
    AcceptedProofs(lib, b.keys, message, m.proofs);
  }

  /** The builder's inputs are fit to be introduced: a schema-valid record, usable keys currently
      valid, and no key used twice. */
  ghost predicate Fit(lib: Lib, b: Build, now: int) {
    && lib.schema("key-binding.v1", Record(lib, b)) && b.generation < U64 && "agent-card" in b.keys
    && (forall p :: p in b.keys ==> |b.keys[p].key| == 32 && lib.point(b.keys[p].key) && lib.strong(b.keys[p].key))
    && (forall p, q :: p in b.keys && q in b.keys && KeyIdOf(lib, b.keys[p].key) == KeyIdOf(lib, b.keys[q].key) ==>
      p == q)
    && lib.time(b.notBefore).Some? && lib.time(b.notAfter).Some? &&
      lib.time(b.notBefore).value <= now < lib.time(b.notAfter).value
  }

  /** Fit inputs with a root-signed card of the right profile. */
  ghost predicate Introducible(lib: Lib, b: Build, card: AgentCard, profile: AgentCard -> bool, now: int) {
    Fit(lib, b, now) && VerifyCard(lib, card, b.keys["agent-card"].key) && profile(card)
  }

  lemma KeySurvivesJwk(lib: Lib, key: Key)
    requires Strict(lib.urlSafeNoPad) && |key| == 32 && lib.point(key)
    ensures ToKey(lib, FromKey(lib, key)) == Some(key)
  {
    assert lib.urlSafeNoPad.decode(lib.urlSafeNoPad.encode(key)) == Some(key);
  }

  lemma OwnEntryIsSound(lib: Lib, b: Build, key: Key, now: int)
    requires Strict(lib.urlSafeNoPad) && |key| == 32 && lib.point(key)
    requires lib.time(b.notBefore).Some? && lib.time(b.notAfter).Some? &&
      lib.time(b.notBefore).value <= now < lib.time(b.notAfter).value
    ensures Sound(lib, now, OwnEntry(lib, b, key)) && OwnEntry(lib, b, key).thumbprint == KeyIdOf(lib, key)
  {
    KeySurvivesJwk(lib, key);
  }

  lemma OwnKeysAreSound(lib: Lib, b: Build, card: AgentCard, profile: AgentCard -> bool, now: int,
                        keys: map<string, KeyEntry>)
    requires Strict(lib.urlSafeNoPad) && Introducible(lib, b, card, profile, now)
    requires keys == Filed(b.keys, key => OwnEntry(lib, b, key))
    ensures forall p :: p in keys ==> Sound(lib, now, keys[p])
    ensures forall p, q :: p in keys && q in keys && keys[p].thumbprint == keys[q].thumbprint ==> p == q
  {
    forall p | p in keys ensures Sound(lib, now, keys[p]) && keys[p].thumbprint == KeyIdOf(lib, b.keys[p].key) {
      OwnEntryIsSound(lib, b, b.keys[p].key, now);
    }
  }

  lemma OwnRecordIsAccepted(lib: Lib, b: Build, card: AgentCard, profile: AgentCard -> bool, now: int)
    requires Strict(lib.urlSafeNoPad) && Introducible(lib, b, card, profile, now)
    ensures KeyBinding.Verify(lib, Record(lib, b), now) == KeyBinding.Ok(OwnSet(lib, b))
  {
    var own := OwnSet(lib, b);
    ParseOfSet(own);
    OwnKeysAreSound(lib, b, card, profile, now, own.keys);
    AcceptedRecords(lib, SetJson(own), now, own);
  }

  lemma OwnProofProves(lib: Lib, b: Build, key: Key, message: string)
    requires Strict(lib.urlSafeNoPad) && SignaturesSurvive(lib) && |key| == 32 && lib.point(key) && lib.strong(key)
    ensures Proves(lib, message, OwnEntry(lib, b, key), ProofText(lib, key, message))
  {
    KeySurvivesJwk(lib, key);
    var bytes := lib.sigBytes(Signature(key, message));
    assert lib.urlSafeNoPad.decode(lib.urlSafeNoPad.encode(bytes)) == Some(bytes);
  }

  lemma OwnProofsAreAccepted(lib: Lib, b: Build, message: string, entries: map<string, KeyEntry>,
                             proofs: map<string, string>)
    requires Strict(lib.urlSafeNoPad) && SignaturesSurvive(lib)
    requires forall p :: p in b.keys ==> |b.keys[p].key| == 32 && lib.point(b.keys[p].key) && lib.strong(b.keys[p].key)
    requires entries == Filed(b.keys, key => OwnEntry(lib, b, key)) &&
      proofs == Filed(b.keys, key => ProofText(lib, key, message))
    ensures VerifyProofsOver(lib, entries, message, proofs).None?
  {
    forall p | p in entries && p in proofs ensures Proves(lib, message, entries[p], proofs[p]) {
      OwnProofProves(lib, b, b.keys[p].key, message);
    }
    AcceptedProofs(lib, entries, message, proofs);
  }

  lemma OwnPartyIsAccepted(lib: Lib, b: Build, card: AgentCard, tls: string, profile: AgentCard -> bool, now: int)
    requires Strict(lib.urlSafeNoPad) && Introducible(lib, b, card, profile, now)
    requires EqIgnoreCase(tls, if b.transcript.role.Dialer? then b.transcript.dialerTls else b.transcript.responderTls)
    ensures PartyError(lib, KeyIdOf(lib, b.keys["agent-card"].key), tls, OwnSet(lib, b), card, profile).None?
  {
    KeySurvivesJwk(lib, b.keys["agent-card"].key);
    PartyExactly(lib, KeyIdOf(lib, b.keys["agent-card"].key), tls, OwnSet(lib, b), card, profile);
  }

  /** What one side builds, the other side accepts against the root it imported, whenever both hold
      the same transcript and the connection shows the builder's certificate. */
  lemma BuiltIsAccepted(lib: Lib, b: Build, card: AgentCard, t: Transcript, tls: string, profile: AgentCard -> bool,
                        now: int)
    requires Strict(lib.urlSafeNoPad) && SignaturesSurvive(lib) && Introducible(lib, b, card, profile, now)
    requires t.(keyBindingSha256 := b.transcript.keyBindingSha256) == b.transcript
    requires EqIgnoreCase(tls, if t.role.Dialer? then t.dialerTls else t.responderTls)
    ensures var root := KeyIdOf(lib, b.keys["agent-card"].key);
      VerifyIntroduction(lib, root, t, tls, OwnMaterial(lib, b, card), profile, now) == Accepted(OwnSet(lib, b), root)
  {
    OwnRecordIsAccepted(lib, b, card, profile, now);
    OwnPartyIsAccepted(lib, b, card, tls, profile, now);
    assert Bound(lib, t, Record(lib, b)) == Bound(lib, b.transcript, Record(lib, b));
    OwnProofsAreAccepted(lib, b, ProofMessage(lib, b), OwnSet(lib, b).keys, OwnMaterial(lib, b, card).proofs);
    DecidedExactly(lib, KeyIdOf(lib, b.keys["agent-card"].key), tls, KeyBinding.Ok(OwnSet(lib, b)), card, profile,
                   ProofMessage(lib, b), OwnMaterial(lib, b, card).proofs, OwnSet(lib, b));
  }
}
