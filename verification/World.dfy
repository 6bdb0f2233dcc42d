/** Runs of the protocol on a hostile network.

    Honest parties sign in three ways only: introduction transcripts, Agent Card JWS and DSSE
    envelopes. The network keeps every signature ever made, and an adversary adds signatures over
    anything with keys that are not honest. Whatever is delivered is assembled from those. */
module World {
  import opened Json
  import opened Options
  import opened Crypto
  import opened KeyBinding
  import opened Jws
  import opened Introduction
  import opened Ascii
  import Dsse

  /** An honest signing operation. */
  datatype Op =
    | Introduce(build: Build)
    | IssueCard(holder: Key, fields: map<string, Json>)
    | SignEnvelope(signer: Key, payloadType: string, payload: string)

  function CardMessage(lib: Lib, holder: Key, fields: map<string, Json>): string {
    SigningInput(lib, OwnProtected(lib, holder), Canonical(Obj(fields)))
  }

  /** The signatures an operation releases. */
  function Made(lib: Lib, op: Op): set<Signature> {
    match op
    case Introduce(b) => set p | p in b.keys :: Signature(b.keys[p].key, ProofMessage(lib, b))
    case IssueCard(k, fields) => {Signature(k, CardMessage(lib, k, fields))}
    case SignEnvelope(k, t, p) => {Signature(k, Dsse.Pae(t, p))}
  }

  datatype State = State(ops: seq<Op>, seen: set<Signature>)

  datatype Step = Honest(op: Op) | Forge(forged: Signature)

  function Next(lib: Lib, s: State, step: Step): State {
    match step
    case Honest(op) => State(s.ops + [op], s.seen + Made(lib, op))
    case Forge(x) => State(s.ops, s.seen + {x})
  }

  function Run(lib: Lib, steps: seq<Step>): State {
    if steps == [] then State([], {}) else Next(lib, Run(lib, steps[..|steps| - 1]), steps[|steps| - 1])
  }

  /** Honest inputs are real JSON and fit their fields' widths. */
  ghost predicate Proper(op: Op) {
    match op
    case Introduce(b) => b.generation < U64
    case IssueCard(_, fields) => WellFormed(Obj(fields))
    case SignEnvelope(_, _, _) => true
  }

  /** The adversary signs only with keys that are not honest. */
  ghost predicate Allowed(honest: Key -> bool, steps: seq<Step>) {
    forall i :: 0 <= i < |steps| ==>
      match steps[i] case Honest(op) => Proper(op) case Forge(x) => !honest(x.key)
  }

  /** Operation `i` made `x`. */
  predicate MadeBy(lib: Lib, s: State, x: Signature, i: nat) {
    i < |s.ops| && x in Made(lib, s.ops[i])
  }

  /** On every run, a signature under an honest key was made by a recorded operation. */
  lemma {:induction false} HonestSignaturesAreRecorded(lib: Lib, honest: Key -> bool, steps: seq<Step>, x: Signature)
      returns (i: nat)
    requires Allowed(honest, steps) && x in Run(lib, steps).seen && honest(x.key)
    ensures MadeBy(lib, Run(lib, steps), x, i) && Proper(Run(lib, steps).ops[i])
    decreases |steps|
  {
    var n := |steps| - 1;
    var before := Run(lib, steps[..n]);
    if x in before.seen {
      i := HonestSignaturesAreRecorded(lib, honest, steps[..n], x);
    } else {
      i := |before.ops|;
    }
  }

  // ---- The three kinds of signed bytes never meet ----

  lemma TranscriptsOpenWithABrace(t: Transcript)
    ensures |SigningBytes(t)| > 0 && SigningBytes(t)[0] == '{'
  {
    FirstChar(TranscriptJson(t), "");
  }

  lemma EnvelopesHoldASpace(t: string, p: string)
    ensures |Dsse.Pae(t, p)| > 6 && Dsse.Pae(t, p)[0] == 'D' && Dsse.Pae(t, p)[6] == ' '
  {
  }

  lemma JwsInputsAreUrlText(lib: Lib, protected: string, payload: string)
    requires Base64Url(lib.urlSafeNoPad) && UrlText(protected)
    ensures |SigningInput(lib, protected, payload)| > 0
    ensures forall i :: 0 <= i < |SigningInput(lib, protected, payload)| ==>
      UrlChar(SigningInput(lib, protected, payload)[i]) || SigningInput(lib, protected, payload)[i] == '.'
  {
  }

  lemma TranscriptIsNoEnvelope(t: Transcript, kind: string, body: string)
    ensures SigningBytes(t) != Dsse.Pae(kind, body)
  {
    TranscriptsOpenWithABrace(t);
    EnvelopesHoldASpace(kind, body);
  }

  lemma TranscriptIsNoJws(lib: Lib, t: Transcript, protected: string, payload: string)
    requires Base64Url(lib.urlSafeNoPad) && UrlText(protected)
    ensures SigningBytes(t) != SigningInput(lib, protected, payload)
  {
    TranscriptsOpenWithABrace(t);
    JwsInputsAreUrlText(lib, protected, payload);
  }

  lemma EnvelopeIsNoJws(lib: Lib, kind: string, body: string, protected: string, payload: string)
    requires Base64Url(lib.urlSafeNoPad) && UrlText(protected)
    ensures Dsse.Pae(kind, body) != SigningInput(lib, protected, payload)
  {
    EnvelopesHoldASpace(kind, body);
    JwsInputsAreUrlText(lib, protected, payload);
  }

  /** Who made a signature over a transcript. */
  lemma TranscriptSigner(lib: Lib, op: Op, key: Key, t: Transcript)
    requires Base64Url(lib.urlSafeNoPad) && Signature(key, SigningBytes(t)) in Made(lib, op)
    ensures op.Introduce? && Bound(lib, op.build.transcript, Record(lib, op.build)) == t
    ensures exists p :: p in op.build.keys && op.build.keys[p].key == key
  {
    match op
    case Introduce(b) =>
      SigningBytesIsInjective(Bound(lib, b.transcript, Record(lib, b)), t);
    case IssueCard(k, fields) =>
      TranscriptIsNoJws(lib, t, OwnProtected(lib, k), Canonical(Obj(fields)));
    case SignEnvelope(k, kind, body) =>
      TranscriptIsNoEnvelope(t, kind, body);
  }

  /** Who made a signature over a card's signing input. */
  lemma CardSigner(lib: Lib, op: Op, key: Key, protected: string, payload: string)
    requires Base64Url(lib.urlSafeNoPad) && UrlText(protected)
    requires Signature(key, SigningInput(lib, protected, payload)) in Made(lib, op)
    ensures op.IssueCard? && op.holder == key && Canonical(Obj(op.fields)) == payload
  {
    match op
    case Introduce(b) =>
      TranscriptIsNoJws(lib, Bound(lib, b.transcript, Record(lib, b)), protected, payload);
    case IssueCard(k, fields) =>
      SigningInputIsInjective(lib, OwnProtected(lib, k), Canonical(Obj(fields)), protected, payload);
    case SignEnvelope(k, kind, body) =>
      EnvelopeIsNoJws(lib, kind, body, protected, payload);
  }

  /** Who made a signature over an envelope. */
  lemma EnvelopeSigner(lib: Lib, op: Op, key: Key, kind: string, body: string)
    requires Base64Url(lib.urlSafeNoPad) && Signature(key, Dsse.Pae(kind, body)) in Made(lib, op)
    ensures op == SignEnvelope(key, kind, body)
  {
    match op
    case Introduce(b) =>
      TranscriptIsNoEnvelope(Bound(lib, b.transcript, Record(lib, b)), kind, body);
    case IssueCard(k, fields) =>
      EnvelopeIsNoJws(lib, kind, body, OwnProtected(lib, k), Canonical(Obj(fields)));
    case SignEnvelope(k, t, p) =>
      Dsse.PaeIsInjective(t, p, kind, body);
  }

  // ---- What acceptance means on every run ----

  /** Everything on the wire that reads as a signature has been seen: replayed and mixed freely,
      never forged under an honest key. */
  predicate Delivered(lib: Lib, s: State, texts: set<string>) {
    forall x :: x in texts && ReadSignature(lib, x).Some? ==> ReadSignature(lib, x).value in s.seen
  }

  function Wire(m: Material): set<string> {
    m.proofs.Values + set jws | jws in m.card.signatures :: jws.signature
  }

  /** Equal but for the digest that is bound in from the record. */
  predicate SameSession(t: Transcript, u: Transcript) {
    t.(keyBindingSha256 := u.keyBindingSha256) == u
  }

  /** The holder of `key` ran the build for this very session, with this very record. */
  predicate RanBuild(lib: Lib, s: State, i: nat, key: Key, t: Transcript, record: Json) {
    && i < |s.ops| && s.ops[i].Introduce? && (exists p :: p in s.ops[i].build.keys && s.ops[i].build.keys[p].key == key)
    && SameSession(s.ops[i].build.transcript, t)
    && (Record(lib, s.ops[i].build) == record
        || Collision(lib.sha, Canonical(Record(lib, s.ops[i].build)), Canonical(record)))
    && s.ops[i].build.generation < U64
  }

  /** What the accepted bindings are, and what was proved about them. */
  lemma AcceptedMeans(lib: Lib, root: string, t: Transcript, tls: string, m: Material, profile: AgentCard -> bool,
                      now: int, b: KeyBindingSet)
    requires VerifyIntroduction(lib, root, t, tls, m, profile, now).Accepted?
    requires b == VerifyIntroduction(lib, root, t, tls, m, profile, now).bindings
    ensures VerifyIntroduction(lib, root, t, tls, m, profile, now) == Accepted(b, root)
    ensures ParseSet(m.keyBinding) == Some(b) && m.proofs.Keys == b.keys.Keys
    ensures forall p :: p in b.keys ==> Sound(lib, now, b.keys[p])
    ensures forall p :: p in b.keys && p in m.proofs ==>
      Proves(lib, SigningBytes(Bound(lib, t, m.keyBinding)), b.keys[p], m.proofs[p])
    ensures "agent-card" in b.keys && b.keys["agent-card"].thumbprint == root &&
      ToKey(lib, b.keys["agent-card"].jwk).Some?
    ensures VerifyCard(lib, m.card, ToKey(lib, b.keys["agent-card"].jwk).value)
  {
    RootIsExpected(lib, root, tls, KeyBinding.Verify(lib, m.keyBinding, now), m.card, profile,
      SigningBytes(Bound(lib, t, m.keyBinding)), m.proofs);
    AcceptsExactly(lib, root, t, tls, m, profile, now, b);
    AcceptedRecords(lib, m.keyBinding, now, b);
  }

  /** Agreement, key by key: every advertised key that is honest was used by its holder to build
      material for this session, role, roots, certificates, exporter and nonce, with this record. */
  lemma AdvertisedKeyAgrees(lib: Lib, honest: Key -> bool, steps: seq<Step>, root: string, t: Transcript, tls: string,
                            m: Material, profile: AgentCard -> bool, now: int, purpose: string) returns (i: nat)
    requires Base64Url(lib.urlSafeNoPad) && WellFormed(m.keyBinding)
    requires Allowed(honest, steps) && Delivered(lib, Run(lib, steps), Wire(m))
    requires VerifyIntroduction(lib, root, t, tls, m, profile, now).Accepted?
    requires var b := VerifyIntroduction(lib, root, t, tls, m, profile, now).bindings;
      purpose in b.keys && ToKey(lib, b.keys[purpose].jwk).Some? && honest(ToKey(lib, b.keys[purpose].jwk).value)
    ensures var b := VerifyIntroduction(lib, root, t, tls, m, profile, now).bindings;
      RanBuild(lib, Run(lib, steps), i, ToKey(lib, b.keys[purpose].jwk).value, t, m.keyBinding)
  {
    var b := VerifyIntroduction(lib, root, t, tls, m, profile, now).bindings;
    AcceptedMeans(lib, root, t, tls, m, profile, now, b);
    var key, bound := ToKey(lib, b.keys[purpose].jwk).value, Bound(lib, t, m.keyBinding);
    assert m.proofs[purpose] in Wire(m);
    i := SignerOfBound(lib, honest, steps, key, t, m.keyBinding);
  }

  lemma SignerOfBound(lib: Lib, honest: Key -> bool, steps: seq<Step>, key: Key, t: Transcript, record: Json)
      returns (i: nat)
    requires Base64Url(lib.urlSafeNoPad) && WellFormed(record) && Allowed(honest, steps) && honest(key)
    requires Signature(key, SigningBytes(Bound(lib, t, record))) in Run(lib, steps).seen
    ensures RanBuild(lib, Run(lib, steps), i, key, t, record)
  {
    i := HonestSignaturesAreRecorded(lib, honest, steps, Signature(key, SigningBytes(Bound(lib, t, record))));
    var op := Run(lib, steps).ops[i];
    TranscriptSigner(lib, op, key, Bound(lib, t, record));
    if Canonical(Record(lib, op.build)) == Canonical(record) {
      CanonicalIsInjective(Record(lib, op.build), record);
    }
  }

  /** Agreement with the imported root. On every run, accepting material for the root of an honest
      key means its holder built material for this very session, and, short of a hash collision
      between the two named inputs, the accepted bindings are exactly the ones it built, with the
      root as their agent-card key. */
  lemma Agreement(lib: Lib, honest: Key -> bool, steps: seq<Step>, rootKey: Key, t: Transcript, tls: string,
                  m: Material, profile: AgentCard -> bool, now: int) returns (i: nat)
    requires Base64Url(lib.urlSafeNoPad) && WellFormed(m.keyBinding)
    requires Allowed(honest, steps) && Delivered(lib, Run(lib, steps), Wire(m)) && honest(rootKey)
    requires VerifyIntroduction(lib, KeyIdOf(lib, rootKey), t, tls, m, profile, now).Accepted?
    ensures var b := VerifyIntroduction(lib, KeyIdOf(lib, rootKey), t, tls, m, profile, now).bindings;
      && "agent-card" in b.keys
      && (Collision(lib.thumb, Canonical(JwkJson(b.keys["agent-card"].jwk)), Canonical(JwkJson(FromKey(lib, rootKey))))
          || (RanBuild(lib, Run(lib, steps), i, rootKey, t, m.keyBinding)
              && var own := Run(lib, steps).ops[i].build;
                (Record(lib, own) == m.keyBinding ==>
                  b == OwnSet(lib, own) && "agent-card" in own.keys && own.keys["agent-card"].key == rootKey)))
  {
    var b := VerifyIntroduction(lib, KeyIdOf(lib, rootKey), t, tls, m, profile, now).bindings;
    i := 0;
    var jwk := b.keys["agent-card"].jwk;
    RootIsNamed(lib, KeyIdOf(lib, rootKey), t, tls, m, profile, now);
    ThumbprintNamesJwk(lib, jwk, FromKey(lib, rootKey));
    if jwk == FromKey(lib, rootKey) {
      DecodedKey(lib, jwk, rootKey);
      i := AdvertisedKeyAgrees(lib, honest, steps, KeyIdOf(lib, rootKey), t, tls, m, profile, now, "agent-card");
      var own := Run(lib, steps).ops[i].build;
      if Record(lib, own) == m.keyBinding {
        RecordIsOwn(lib, own, m.keyBinding, b, rootKey);
      }
    }
  }

  lemma DecodedKey(lib: Lib, jwk: Jwk, key: Key)
    requires Strict(lib.urlSafeNoPad) && jwk == FromKey(lib, key) && ToKey(lib, jwk).Some?
    ensures ToKey(lib, jwk).value == key
  {
    assert lib.urlSafeNoPad.decode(lib.urlSafeNoPad.encode(key)) == Some(key);
  }

  /** An accepted record's agent-card entry is a usable key under the expected thumbprint. */
  lemma RootIsNamed(lib: Lib, root: string, t: Transcript, tls: string, m: Material, profile: AgentCard -> bool,
                    now: int)
    requires VerifyIntroduction(lib, root, t, tls, m, profile, now).Accepted?
    ensures var b := VerifyIntroduction(lib, root, t, tls, m, profile, now).bindings;
      && ParseSet(m.keyBinding) == Some(b) && "agent-card" in b.keys &&
        Thumbprint(lib, b.keys["agent-card"].jwk) == root
      && ToKey(lib, b.keys["agent-card"].jwk).Some? &&
        VerifyCard(lib, m.card, ToKey(lib, b.keys["agent-card"].jwk).value)
  {
    var b := VerifyIntroduction(lib, root, t, tls, m, profile, now).bindings;
    AcceptedMeans(lib, root, t, tls, m, profile, now, b);
    assert Sound(lib, now, b.keys["agent-card"]);
  }

  lemma RecordIsOwn(lib: Lib, own: Build, record: Json, b: KeyBindingSet, rootKey: Key)
    requires Strict(lib.urlSafeNoPad) && own.generation < U64
    requires Record(lib, own) == record && ParseSet(record) == Some(b)
    requires "agent-card" in b.keys && b.keys["agent-card"].jwk == FromKey(lib, rootKey)
    ensures b == OwnSet(lib, own) && "agent-card" in own.keys && own.keys["agent-card"].key == rootKey
  {
    ParseOfSet(OwnSet(lib, own));
    var key := own.keys["agent-card"].key;
    assert lib.urlSafeNoPad.decode(lib.urlSafeNoPad.encode(key)) == Some(key);
    assert lib.urlSafeNoPad.decode(lib.urlSafeNoPad.encode(rootKey)) == Some(rootKey);
  }

  /** The accepted card, too, was issued by the root's holder, field for field. */
  lemma CardAgrees(lib: Lib, honest: Key -> bool, steps: seq<Step>, rootKey: Key, t: Transcript, tls: string,
                   m: Material, profile: AgentCard -> bool, now: int) returns (i: nat)
    requires Base64Url(lib.urlSafeNoPad) && WellFormed(Obj(m.card.fields))
    requires Allowed(honest, steps) && Delivered(lib, Run(lib, steps), Wire(m)) && honest(rootKey)
    requires VerifyIntroduction(lib, KeyIdOf(lib, rootKey), t, tls, m, profile, now).Accepted?
    ensures var b := VerifyIntroduction(lib, KeyIdOf(lib, rootKey), t, tls, m, profile, now).bindings;
      && "agent-card" in b.keys
      && (Collision(lib.thumb, Canonical(JwkJson(b.keys["agent-card"].jwk)), Canonical(JwkJson(FromKey(lib, rootKey))))
          || (i < |Run(lib, steps).ops| && Run(lib, steps).ops[i] == IssueCard(rootKey, m.card.fields)))
  {
    i := 0;
    RootIsNamed(lib, KeyIdOf(lib, rootKey), t, tls, m, profile, now);
    var jwk := VerifyIntroduction(lib, KeyIdOf(lib, rootKey), t, tls, m, profile, now).bindings.keys["agent-card"].jwk;
    ThumbprintNamesJwk(lib, jwk, FromKey(lib, rootKey));
    if jwk == FromKey(lib, rootKey) {
      DecodedKey(lib, jwk, rootKey);
      i := IssuedCard(lib, honest, steps, rootKey, m);
    }
  }

  lemma IssuedCard(lib: Lib, honest: Key -> bool, steps: seq<Step>, key: Key, m: Material) returns (i: nat)
    requires Base64Url(lib.urlSafeNoPad) && WellFormed(Obj(m.card.fields))
    requires Allowed(honest, steps) && Delivered(lib, Run(lib, steps), Wire(m)) && honest(key)
    requires VerifyCard(lib, m.card, key)
    ensures i < |Run(lib, steps).ops| && Run(lib, steps).ops[i] == IssueCard(key, m.card.fields)
  {
    var payload := CardPayload(m.card);
    var jws :| jws in m.card.signatures && VerifyDetached(lib, jws, payload, key).Ok?;
    assert jws.signature in Wire(m);
    assert UrlText(jws.protected) by {
      assert jws.protected == lib.urlSafeNoPad.encode(lib.urlSafeNoPad.decode(jws.protected).value);
    }
    i := HonestSignaturesAreRecorded(lib, honest, steps, Signature(key, SigningInput(lib, jws.protected, payload)));
    var op := Run(lib, steps).ops[i];
    CardSigner(lib, op, key, jws.protected, payload);
    CanonicalIsInjective(Obj(op.fields), Obj(m.card.fields));
  }

  /** The transcript does not bind the card: the same record and proofs are accepted with any other
      card the root signed, and with no other. */
  lemma CardIsNotBound(lib: Lib, root: string, t: Transcript, tls: string, m: Material, profile: AgentCard -> bool,
                       now: int, other: AgentCard)
    requires VerifyIntroduction(lib, root, t, tls, m, profile, now).Accepted?
    ensures var r := VerifyIntroduction(lib, root, t, tls, m, profile, now);
      && "agent-card" in r.bindings.keys && ToKey(lib, r.bindings.keys["agent-card"].jwk).Some?
      && (VerifyIntroduction(lib, root, t, tls, m.(card := other), profile, now) == r <==>
          VerifyCard(lib, other, ToKey(lib, r.bindings.keys["agent-card"].jwk).value) && profile(other))
  {
    var b := VerifyIntroduction(lib, root, t, tls, m, profile, now).bindings;
    AcceptedMeans(lib, root, t, tls, m, profile, now, b);
    AcceptsExactly(lib, root, t, tls, m, profile, now, b);
    AcceptsExactly(lib, root, t, tls, m.(card := other), profile, now, b);
  }

  /** A card with its holder's own signature. */
  function SignedCard(lib: Lib, fields: map<string, Json>, holder: Key): AgentCard {
    AgentCard.AgentCard(fields, [SignCard(lib, AgentCard.AgentCard(fields, []), holder)])
  }

  lemma SignedCardVerifies(lib: Lib, fields: map<string, Json>, holder: Key)
    requires Base64Url(lib.urlSafeNoPad) && SignaturesSurvive(lib) && lib.strong(holder)
    requires lib.header(Canonical(HeaderJson(OwnHeader(lib, holder)))) == Some(OwnHeader(lib, holder))
    ensures VerifyCard(lib, SignedCard(lib, fields, holder), holder)
  {
    var card := SignedCard(lib, fields, holder);
    SignThenVerify(lib, CardPayload(card), holder, CardPayload(card), holder);
    assert card.signatures[0] in card.signatures;
  }

  lemma TextReads(lib: Lib, s: Signature)
    requires Strict(lib.urlSafeNoPad) && SignaturesSurvive(lib)
    ensures ReadSignature(lib, lib.urlSafeNoPad.encode(lib.sigBytes(s))) == Some(s)
  {
    assert lib.urlSafeNoPad.decode(lib.urlSafeNoPad.encode(lib.sigBytes(s))) == Some(lib.sigBytes(s));
  }

  function HonestSteps(b: Build, fields: map<string, Json>): seq<Step>
    requires "agent-card" in b.keys
  {
    [Honest(IssueCard(b.keys["agent-card"].key, fields)), Honest(Introduce(b))]
  }

  lemma HonestStepsAreSeen(lib: Lib, b: Build, fields: map<string, Json>)
    requires "agent-card" in b.keys
    ensures Run(lib, HonestSteps(b, fields)).seen ==
      Made(lib, IssueCard(b.keys["agent-card"].key, fields)) + Made(lib, Introduce(b))
  {
    var steps := HonestSteps(b, fields);
    assert steps[..1] == [steps[0]] && steps[..1][..0] == [];
    assert Run(lib, steps[..1]) == Next(lib, Run(lib, steps[..1][..0]), steps[0]);
  }

  lemma OwnMaterialIsDelivered(lib: Lib, b: Build, fields: map<string, Json>, card: AgentCard, s: State)
    requires Strict(lib.urlSafeNoPad) && SignaturesSurvive(lib) && "agent-card" in b.keys
    requires card == SignedCard(lib, fields, b.keys["agent-card"].key)
    requires s.seen >= Made(lib, IssueCard(b.keys["agent-card"].key, fields)) + Made(lib, Introduce(b))
    ensures Delivered(lib, s, Wire(OwnMaterial(lib, b, card)))
  {
    var m := OwnMaterial(lib, b, card);
    forall x | x in Wire(m) && ReadSignature(lib, x).Some? ensures ReadSignature(lib, x).value in s.seen {
      if x in m.proofs.Values {
        ProofWasMade(lib, b, m.proofs, x);
      } else {
        CardSignatureWasMade(lib, fields, b.keys["agent-card"].key, x);
      }
    }
  }

  lemma ProofWasMade(lib: Lib, b: Build, proofs: map<string, string>, x: string)
    requires Strict(lib.urlSafeNoPad) && SignaturesSurvive(lib) && x in proofs.Values
    requires proofs == Filed(b.keys, key => ProofText(lib, key, ProofMessage(lib, b)))
    ensures ReadSignature(lib, x).Some? && ReadSignature(lib, x).value in Made(lib, Introduce(b))
  {
    var p :| p in proofs && proofs[p] == x;
    TextReads(lib, Signature(b.keys[p].key, ProofMessage(lib, b)));
  }

  lemma CardSignatureWasMade(lib: Lib, fields: map<string, Json>, holder: Key, x: string)
    requires Strict(lib.urlSafeNoPad) && SignaturesSurvive(lib)
    requires x == SignedCard(lib, fields, holder).signatures[0].signature
    ensures ReadSignature(lib, x) == Some(Signature(holder, CardMessage(lib, holder, fields)))
  {
    TextReads(lib, Signature(holder, CardMessage(lib, holder, fields)));
  }

  /** The other direction: a party that issues its card and builds its material can have both
      delivered, and the peer that imported its root accepts them. */
  lemma HonestRunSucceeds(lib: Lib, b: Build, fields: map<string, Json>, t: Transcript, tls: string,
                          profile: AgentCard -> bool, now: int)
    requires Base64Url(lib.urlSafeNoPad) && SignaturesSurvive(lib) && Fit(lib, b, now)
    requires var root := b.keys["agent-card"].key;
      lib.header(Canonical(HeaderJson(OwnHeader(lib, root)))) == Some(OwnHeader(lib, root)) &&
        profile(SignedCard(lib, fields, root))
    requires SameSession(b.transcript, t) && EqIgnoreCase(tls, if t.role.Dialer? then t.dialerTls else t.responderTls)
    ensures var root := b.keys["agent-card"].key;
      var m := OwnMaterial(lib, b, SignedCard(lib, fields, root));
      && Delivered(lib, Run(lib, HonestSteps(b, fields)), Wire(m))
      && VerifyIntroduction(lib, KeyIdOf(lib, root), t, tls, m, profile, now) ==
        Accepted(OwnSet(lib, b), KeyIdOf(lib, root))
  {
    var root := b.keys["agent-card"].key;
    SignedCardVerifies(lib, fields, root);
    BuiltIsAccepted(lib, b, SignedCard(lib, fields, root), t, tls, profile, now);
    HonestStepsAreSeen(lib, b, fields);
    OwnMaterialIsDelivered(lib, b, fields, SignedCard(lib, fields, root), Run(lib, HonestSteps(b, fields)));
  }

  /** Every signature the envelope carries has been seen. */
  predicate EnvelopeDelivered(lib: Lib, s: State, envelope: Dsse.Envelope) {
    forall i :: 0 <= i < |envelope.signatures| ==>
      var read := Dsse.ReadSignature(lib, envelope.signatures[i].sig); read.Some? ==> read.value in s.seen
  }

  /** On every run, an envelope accepted under an honest key was signed by its holder, with exactly
      this type and payload. */
  lemma EnvelopeAgrees(lib: Lib, honest: Key -> bool, steps: seq<Step>, envelope: Dsse.Envelope, kind: string,
                       key: Key) returns (i: nat)
    requires Base64Url(lib.urlSafeNoPad) && Allowed(honest, steps) && honest(key)
    requires Dsse.Verify(lib, envelope, kind, key).Ok? && EnvelopeDelivered(lib, Run(lib, steps), envelope)
    ensures var payload := Dsse.Verify(lib, envelope, kind, key).payload;
      i < |Run(lib, steps).ops| && Run(lib, steps).ops[i] == SignEnvelope(key, kind, payload)
  {
    var payload := Dsse.Verify(lib, envelope, kind, key).payload;
    assert Dsse.ReadSignature(lib, envelope.signatures[0].sig).Some?;
    i := HonestSignaturesAreRecorded(lib, honest, steps, Signature(key, Dsse.Pae(kind, payload)));
    EnvelopeSigner(lib, Run(lib, steps).ops[i], key, kind, payload);
  }
}
