/** Introductions and change detection together: what a reported change says about the peer. */
module Pinning {
  import opened Json
  import opened Options
  import opened Crypto
  import opened KeyBinding
  import opened Jws
  import opened Introduction
  import opened Session
  import World

  /** One introduction as the verifying side meets it. */
  datatype Meeting = Meeting(transcript: Transcript, tls: string, material: Material, now: int)

  function Verdict(lib: Lib, rootKey: Key, profile: AgentCard -> bool, x: Meeting): Outcome {
    VerifyIntroduction(lib, KeyIdOf(lib, rootKey), x.transcript, x.tls, x.material, profile, x.now)
  }

  /** The material of `x` came over the network of `steps` and was accepted for the root. */
  ghost predicate Met(lib: Lib, steps: seq<World.Step>, rootKey: Key, profile: AgentCard -> bool, x: Meeting) {
    && WellFormed(x.material.keyBinding) && WellFormed(Obj(x.material.card.fields))
    && World.Delivered(lib, World.Run(lib, steps), World.Wire(x.material))
    && Verdict(lib, rootKey, profile, x).Accepted?
  }

  /** Operation `i` built the accepted bindings for this session, and operation `j` issued the card. */
  predicate Genuine(lib: Lib, s: World.State, rootKey: Key, b: KeyBindingSet, x: Meeting, i: nat, j: nat) {
    && i < |s.ops| && s.ops[i].Introduce? && World.SameSession(s.ops[i].build.transcript, x.transcript)
    && b == OwnSet(lib, s.ops[i].build) && Fits(b)
    && j < |s.ops| && s.ops[j] == World.IssueCard(rootKey, x.material.card.fields)
  }

  /** The digests of the introduction collide: the root's thumbprint, or the digest of the record
      built by operation `i`. */
  ghost predicate Collides(lib: Lib, s: World.State, rootKey: Key, b: KeyBindingSet, x: Meeting, i: nat) {
    || ("agent-card" in b.keys &&
        Collision(lib.thumb, Canonical(JwkJson(b.keys["agent-card"].jwk)), Canonical(JwkJson(FromKey(lib, rootKey)))))
    || (i < |s.ops| && s.ops[i].Introduce? &&
        Collision(lib.sha, Canonical(Record(lib, s.ops[i].build)), Canonical(x.material.keyBinding)))
  }

  /** What was accepted for an honest root is what its holder built and issued. */
  lemma MetIsGenuine(lib: Lib, honest: Key -> bool, steps: seq<World.Step>, rootKey: Key, profile: AgentCard -> bool,
                     x: Meeting) returns (i: nat, j: nat)
    requires Base64Url(lib.urlSafeNoPad) && World.Allowed(honest, steps) && honest(rootKey)
    requires Met(lib, steps, rootKey, profile, x)
    ensures var s, b := World.Run(lib, steps), Verdict(lib, rootKey, profile, x).bindings;
      Collides(lib, s, rootKey, b, x, i) || Genuine(lib, s, rootKey, b, x, i, j)
  {
    i := World.Agreement(lib, honest, steps, rootKey, x.transcript, x.tls, x.material, profile, x.now);
    j := World.CardAgrees(lib, honest, steps, rootKey, x.transcript, x.tls, x.material, profile, x.now);
  }

  /** Two identities pinned for genuine introductions. */
  lemma GenuineChange(lib: Lib, s: World.State, rootKey: Key, a: KeyBindingSet, b: KeyBindingSet, x: Meeting,
                      y: Meeting, i: nat, j: nat, k: nat, l: nat)
    requires Genuine(lib, s, rootKey, a, x, i, j) && Genuine(lib, s, rootKey, b, y, k, l)
    requires WellFormed(Obj(x.material.card.fields)) && WellFormed(Obj(y.material.card.fields))
    requires PeerIdentityFrom(lib, a, x.material.card.fields).Peer?
    requires PeerIdentityFrom(lib, b, y.material.card.fields).Peer?
    requires !Collision(lib.sha, Canonical(Projection(Obj(x.material.card.fields), a)),
                        Canonical(Projection(Obj(y.material.card.fields), b)))
    ensures var p, q := PeerIdentityFrom(lib, a, x.material.card.fields).identity,
                        PeerIdentityFrom(lib, b, y.material.card.fields).identity;
      DetectChange(p, q) == None <==>
        && OwnSet(lib, s.ops[i].build) == OwnSet(lib, s.ops[k].build)
        && SamePosture(Obj(s.ops[j].fields), Obj(s.ops[l].fields))
  {
    NoSilentChange(lib, a, x.material.card.fields, b, y.material.card.fields);
  }

  /** Change detection over every run: when material is accepted twice for one honest root, then,
      short of a collision between two named inputs, no change is reported exactly when the holder
      built the same bindings both times and the two cards it issued agree on everything pinned. */
  lemma ChangesAreTheHolders(lib: Lib, honest: Key -> bool, steps: seq<World.Step>, rootKey: Key,
                             profile: AgentCard -> bool, x: Meeting, y: Meeting)
      returns (i: nat, j: nat, k: nat, l: nat)
    requires Base64Url(lib.urlSafeNoPad) && World.Allowed(honest, steps) && honest(rootKey)
    requires Met(lib, steps, rootKey, profile, x) && Met(lib, steps, rootKey, profile, y)
    ensures var s, c, d := World.Run(lib, steps), x.material.card.fields, y.material.card.fields;
      var a, b := Verdict(lib, rootKey, profile, x).bindings, Verdict(lib, rootKey, profile, y).bindings;
      || Collides(lib, s, rootKey, a, x, i) || Collides(lib, s, rootKey, b, y, k)
      || Collision(lib.sha, Canonical(Projection(Obj(c), a)), Canonical(Projection(Obj(d), b)))
      || (&& Genuine(lib, s, rootKey, a, x, i, j) && Genuine(lib, s, rootKey, b, y, k, l)
          && (PeerIdentityFrom(lib, a, c).Peer? && PeerIdentityFrom(lib, b, d).Peer? ==>
                (DetectChange(PeerIdentityFrom(lib, a, c).identity, PeerIdentityFrom(lib, b, d).identity) == None <==>
                  && OwnSet(lib, s.ops[i].build) == OwnSet(lib, s.ops[k].build)
                  && SamePosture(Obj(s.ops[j].fields), Obj(s.ops[l].fields)))))
  {
    i, j := MetIsGenuine(lib, honest, steps, rootKey, profile, x);
    k, l := MetIsGenuine(lib, honest, steps, rootKey, profile, y);
    var s, c, d := World.Run(lib, steps), x.material.card.fields, y.material.card.fields;
    var a, b := Verdict(lib, rootKey, profile, x).bindings, Verdict(lib, rootKey, profile, y).bindings;
    if Genuine(lib, s, rootKey, a, x, i, j) && Genuine(lib, s, rootKey, b, y, k, l)
      && PeerIdentityFrom(lib, a, c).Peer? && PeerIdentityFrom(lib, b, d).Peer?
      && !Collision(lib.sha, Canonical(Projection(Obj(c), a)), Canonical(Projection(Obj(d), b)))
    {
      GenuineChange(lib, s, rootKey, a, b, x, y, i, j, k, l);
    }
  }
}
