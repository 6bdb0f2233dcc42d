/** Purpose-bound key records: schema gate, parse, then every key checked in purpose order. */
module KeyBinding {
  import Decimal
  import opened Json
  import opened Ordering
  import opened Options
  import opened Crypto

  datatype Identity = Identity(issuer: string, agent: string)

  datatype KeyEntry = KeyEntry(jwk: Jwk, thumbprint: string, generation: nat, notBefore: string, notAfter: string)

  datatype KeyBindingSet = KeyBindingSet(schemaVersion: nat, subject: Identity, tls: string,
                                         keys: map<string, KeyEntry>)

  datatype Error = Schema | Parse | BadJwk(purpose: string) | ThumbprintMismatch(purpose: string)
    | ReusedKey(purpose: string)
    | BadTimestamp(purpose: string) | BadInterval(purpose: string) | NotCurrentlyValid(purpose: string)

  datatype Result = Ok(set_: KeyBindingSet) | Err(error: Error)

  // ---- The record as JSON ----

  function EntryJson(e: KeyEntry): (v: Json)
    ensures WellFormed(v)
  {
    Obj(map["jwk" := JwkJson(e.jwk), "thumbprint" := Str(e.thumbprint), "generation" := Int(e.generation),
            "not_before" := Str(e.notBefore), "not_after" := Str(e.notAfter)])
  }

  function MapJson<T>(m: map<string, T>, write: T -> Json): Json {
    Obj(map p | p in m :: write(m[p]))
  }

  function KeysJson(keys: map<string, KeyEntry>): (v: Json)
    ensures WellFormed(v)
  {
    MapJson(keys, EntryJson)
  }

  function IdentityJson(id: Identity): (v: Json)
    ensures WellFormed(v)
  {
    Obj(map["issuer" := Str(id.issuer), "agent" := Str(id.agent)])
  }

  function SetJson(s: KeyBindingSet): (v: Json)
    ensures WellFormed(v)
  {
    Obj(map["schema_version" := Int(s.schemaVersion), "subject" := IdentityJson(s.subject),
            "tls_certificate_sha256" := Str(s.tls), "keys" := KeysJson(s.keys)])
  }

  function Text(v: Json): Option<string> {
    if v.Str? then Some(v.s) else None
  }

  /** An unsigned integer below `limit`. */
  function Unsigned(v: Json, limit: nat): Option<nat> {
    if v.Num? && Decimal.Digits(v.spelling) && Decimal.Value(v.spelling) < limit then Some(Decimal.Value(v.spelling))
      else None
  }

  function ParseJwk(v: Json): Option<Jwk> {
    var kty, crv, x := Text(Get(v, "kty")), Text(Get(v, "crv")), Text(Get(v, "x"));
    if kty.Some? && crv.Some? && x.Some? then Some(Jwk(kty.value, crv.value, x.value)) else None
  }

  function ParseEntry(v: Json): Option<KeyEntry> {
    var jwk, thumbprint := ParseJwk(Get(v, "jwk")), Text(Get(v, "thumbprint"));
    var generation := Unsigned(Get(v, "generation"), U64);
    var notBefore, notAfter := Text(Get(v, "not_before")), Text(Get(v, "not_after"));
    if jwk.Some? && thumbprint.Some? && generation.Some? && notBefore.Some? && notAfter.Some?
    then Some(KeyEntry(jwk.value, thumbprint.value, generation.value, notBefore.value, notAfter.value))
    else None
  }

  function ParseMap<T>(v: Json, read: Json -> Option<T>): Option<map<string, T>> {
    if v.Obj? && forall p :: p in v.members ==> read(v.members[p]).Some?
    then Some(map p | p in v.members :: read(v.members[p]).value)
    else None
  }

  function ParseIdentity(v: Json): Option<Identity> {
    var issuer, agent := Text(Get(v, "issuer")), Text(Get(v, "agent"));
    if issuer.Some? && agent.Some? then Some(Identity(issuer.value, agent.value)) else None
  }

  function ParseSet(v: Json): Option<KeyBindingSet> {
    var version, subject := Unsigned(Get(v, "schema_version"), U8), ParseIdentity(Get(v, "subject"));
    var tls, keys := Text(Get(v, "tls_certificate_sha256")), ParseMap(Get(v, "keys"), ParseEntry);
    if version.Some? && subject.Some? && tls.Some? && keys.Some?
    then Some(KeyBindingSet(version.value, subject.value, tls.value, keys.value))
    else None
  }

  /** The widths the fields have. */
  predicate Fits(s: KeyBindingSet) {
    s.schemaVersion < U8 && forall p :: p in s.keys ==> s.keys[p].generation < U64
  }

  lemma UnsignedOfInt(n: nat, limit: nat)
    ensures Unsigned(Int(n), limit) == if n < limit then Some(n) else None
  {
    Decimal.ValueOfPrint(n);
  }

  lemma ParseOfJwk(jwk: Jwk)
    ensures ParseJwk(JwkJson(jwk)) == Some(jwk)
  {
  }

  lemma ParseOfEntry(e: KeyEntry)
    requires e.generation < U64
    ensures ParseEntry(EntryJson(e)) == Some(e)
  {
    ParseOfJwk(e.jwk);
    UnsignedOfInt(e.generation, U64);
  }

  lemma ParseOfMap<T>(m: map<string, T>, write: T -> Json, read: Json -> Option<T>)
    requires forall p :: p in m ==> read(write(m[p])) == Some(m[p])
    ensures ParseMap(MapJson(m, write), read) == Some(m)
  {
    var members := MapJson(m, write).members;
    assert forall p :: p in members ==> members[p] == write(m[p]);
    assert (map p | p in members :: read(members[p]).value) == m;
  }

  lemma SetFields(s: KeyBindingSet)
    ensures Get(SetJson(s), "schema_version") == Int(s.schemaVersion)
    ensures Get(SetJson(s), "subject") == IdentityJson(s.subject)
    ensures Get(SetJson(s), "tls_certificate_sha256") == Str(s.tls)
    ensures Get(SetJson(s), "keys") == KeysJson(s.keys)
  {
  }

  lemma ParseFields(v: Json, s: KeyBindingSet)
    requires Get(v, "schema_version") == Int(s.schemaVersion) && s.schemaVersion < U8
    requires Get(v, "tls_certificate_sha256") == Str(s.tls)
    requires ParseIdentity(Get(v, "subject")) == Some(s.subject)
    requires ParseMap(Get(v, "keys"), ParseEntry) == Some(s.keys)
    ensures ParseSet(v) == Some(s)
  {
    UnsignedOfInt(s.schemaVersion, U8);
  }

  lemma ParseOfIdentity(id: Identity)
    ensures ParseIdentity(IdentityJson(id)) == Some(id)
  {
  }

  /** Parsing inverts serializing. */
  lemma ParseOfSet(s: KeyBindingSet)
    requires Fits(s)
    ensures ParseSet(SetJson(s)) == Some(s)
  {
    forall p | p in s.keys ensures ParseEntry(EntryJson(s.keys[p])) == Some(s.keys[p]) {
      ParseOfEntry(s.keys[p]);
    }
    SetFields(s);
    ParseOfIdentity(s.subject);
    ParseOfMap(s.keys, EntryJson, ParseEntry);
    ParseFields(SetJson(s), s);
  }

  // ---- Verification ----

  /** What is wrong with an entry, given its key, the key's thumbprint, its validity interval, and the
      thumbprints already seen. */
  function Judge(purpose: string, key: Option<Key>, name: string, stated: string, seen: set<string>,
                 from: Option<int>, until: Option<int>, now: int): Option<Error> {
    if key.None? then Some(BadJwk(purpose))
    else if name != stated then Some(ThumbprintMismatch(purpose))
    else if name in seen then Some(ReusedKey(purpose))
    else if from.None? || until.None? then Some(BadTimestamp(purpose))
    else if from.value >= until.value then Some(BadInterval(purpose))
    else if now < from.value || now >= until.value then Some(NotCurrentlyValid(purpose))
    else None
  }

  function EntryError(lib: Lib, now: int, purpose: string, e: KeyEntry, seen: set<string>): Option<Error> {
    Judge(purpose, ToKey(lib, e.jwk), Thumbprint(lib, e.jwk), e.thumbprint, seen, lib.time(e.notBefore),
          lib.time(e.notAfter), now)
  }

  /** Each refusal has one cause, checked in this order: key, name, reuse, times, interval. */
  lemma EntryRefusals(purpose: string, key: Option<Key>, name: string, stated: string, seen: set<string>,
                      from: Option<int>, until: Option<int>, now: int)
    ensures var r := Judge(purpose, key, name, stated, seen, from, until, now);
      var unseen, timed := key.Some? && name == stated && name !in seen, from.Some? && until.Some?;
      && (r == Some(BadJwk(purpose)) <==> key.None?)
      && (r == Some(ThumbprintMismatch(purpose)) <==> key.Some? && name != stated)
      && (r == Some(ReusedKey(purpose)) <==> key.Some? && name == stated && stated in seen)
      && (r == Some(BadTimestamp(purpose)) <==> unseen && !timed)
      && (r == Some(BadInterval(purpose)) <==> unseen && timed && until.value <= from.value)
      && (r == Some(NotCurrentlyValid(purpose)) <==>
            unseen && timed && from.value < until.value && !(from.value <= now < until.value))
      && (r == None <==> unseen && timed && from.value <= now < until.value)
  {
  }

  /** The first error in the order given. */
  function FirstError(lib: Lib, now: int, keys: map<string, KeyEntry>, order: seq<string>,
                      seen: set<string>): Option<Error>
    requires forall p :: p in order ==> p in keys
  {
    if order == [] then None
    else
      var e := EntryError(lib, now, order[0], keys[order[0]], seen);
      if e.Some? then e
      else FirstError(lib, now, keys, order[1..], seen + {Thumbprint(lib, keys[order[0]].jwk)})
  }

  function VerifyParsed(lib: Lib, parsed: Option<KeyBindingSet>, now: int): Result {
    if parsed.None? then Err(Parse)
    else
      var e := FirstError(lib, now, parsed.value.keys, SortedKeys(parsed.value.keys.Keys), {});
      if e.Some? then Err(e.value) else Ok(parsed.value)
  }

  function Verify(lib: Lib, value: Json, now: int): Result {
    if !lib.schema("key-binding.v1", value) then Err(Schema) else VerifyParsed(lib, ParseSet(value), now)
  }

  /** The source's loop, with its set of thumbprints seen. */
  method VerifyRecord(lib: Lib, value: Json, now: int) returns (r: Result)
    ensures r == Verify(lib, value, now)
  {
    if !lib.schema("key-binding.v1", value) {
      return Err(Schema);
    }
    var parsed := ParseSet(value);
    if parsed.None? {
      return Err(Parse);
    }
    var keys := parsed.value.keys;
    var order := SortedKeys(keys.Keys);
    var seen: set<string> := {};
    for i := 0 to |order|
      invariant FirstError(lib, now, keys, order[i..], seen) == FirstError(lib, now, keys, order, {})
    {
      var e := EntryError(lib, now, order[i], keys[order[i]], seen);
      if e.Some? {
        return Err(e.value);
      }
      seen := seen + {Thumbprint(lib, keys[order[i]].jwk)};
    }
    r := Ok(parsed.value);
  }

  /** A valid Ed25519 JWK under its own thumbprint, inside a proper validity interval. */
  predicate Sound(lib: Lib, now: int, e: KeyEntry) {
    var notBefore, notAfter := lib.time(e.notBefore), lib.time(e.notAfter);
    && ToKey(lib, e.jwk).Some? && Thumbprint(lib, e.jwk) == e.thumbprint
    && notBefore.Some? && notAfter.Some? && notBefore.value <= now < notAfter.value
  }

  /** Every purpose listed passes, under a name not in `seen`, and no two share a name. */
  ghost predicate AllFresh(sound: string -> bool, name: string -> string, order: seq<string>, seen: set<string>) {
    && (forall p :: p in order ==> sound(p) && name(p) !in seen)
    && (forall i, j :: 0 <= i < j < |order| ==> name(order[i]) != name(order[j]))
  }

  lemma AllFreshStep(sound: string -> bool, name: string -> string, order: seq<string>, seen: set<string>)
    requires |order| > 0
    ensures AllFresh(sound, name, order, seen) <==>
      && sound(order[0]) && name(order[0]) !in seen
      && AllFresh(sound, name, order[1..], seen + {name(order[0])})
  {
    var rest, more := order[1..], seen + {name(order[0])};
    assert forall p :: p in order <==> p == order[0] || p in rest;
    if AllFresh(sound, name, order, seen) {
      forall p | p in rest ensures name(p) != name(order[0]) {
        var j :| 0 <= j < |rest| && rest[j] == p;
        assert order[j + 1] == p;
      }
    }
    if sound(order[0]) && name(order[0]) !in seen && AllFresh(sound, name, rest, more) {
      forall i, j | 0 <= i < j < |order| ensures name(order[i]) != name(order[j]) {
        assert order[j] == rest[j - 1] && order[j] in rest;
        assert i > 0 ==> order[i] == rest[i - 1];
      }
    }
  }

  lemma EntryErrorMeans(lib: Lib, now: int, purpose: string, e: KeyEntry, seen: set<string>)
    ensures EntryError(lib, now, purpose, e, seen).None? <==> Sound(lib, now, e) && e.thumbprint !in seen
  {
    EntryRefusals(purpose, ToKey(lib, e.jwk), Thumbprint(lib, e.jwk), e.thumbprint, seen, lib.time(e.notBefore),
                  lib.time(e.notAfter), now);
  }

  /** `sound` and `name` are the entry check and the thumbprint, by purpose. */
  ghost predicate Describes(lib: Lib, now: int, keys: map<string, KeyEntry>, sound: string -> bool,
                            name: string -> string) {
    forall p :: p in keys ==> sound(p) == Sound(lib, now, keys[p]) && name(p) == keys[p].thumbprint
  }

  lemma {:induction false} NoErrorMeans(lib: Lib, now: int, keys: map<string, KeyEntry>, order: seq<string>,
                                        seen: set<string>, sound: string -> bool, name: string -> string)
    requires Describes(lib, now, keys, sound, name) && forall p :: p in order ==> p in keys
    ensures FirstError(lib, now, keys, order, seen).None? <==> AllFresh(sound, name, order, seen)
  {
    if order != [] {
      AllFreshStep(sound, name, order, seen);
      EntryErrorMeans(lib, now, order[0], keys[order[0]], seen);
      NoErrorMeans(lib, now, keys, order[1..], seen + {keys[order[0]].thumbprint}, sound, name);
    }
  }

  lemma DistinctNames(name: string -> string, order: seq<string>, s: set<string>)
    requires forall p :: p in s <==> p in order
    requires forall i, j :: 0 <= i < j < |order| ==> order[i] != order[j]
    ensures (forall i, j :: 0 <= i < j < |order| ==> name(order[i]) != name(order[j])) <==>
      (forall p, q :: p in s && q in s && name(p) == name(q) ==> p == q)
  {
    if forall i, j :: 0 <= i < j < |order| ==> name(order[i]) != name(order[j]) {
      forall p, q | p in s && q in s && name(p) == name(q) ensures p == q {
        var i, j :| 0 <= i < |order| && order[i] == p && 0 <= j < |order| && order[j] == q;
      }
    }
  }

  lemma FreshKeys(sound: string -> bool, name: string -> string, s: set<string>)
    ensures AllFresh(sound, name, SortedKeys(s), {}) <==>
      (forall p :: p in s ==> sound(p)) && (forall p, q :: p in s && q in s && name(p) == name(q) ==> p == q)
  {
    var order := SortedKeys(s);
    forall i, j | 0 <= i < j < |order| ensures order[i] != order[j] { SortedKeysDiffer(s, i, j); }
    DistinctNames(name, order, s);
  }

  lemma CleanKeys(lib: Lib, now: int, keys: map<string, KeyEntry>)
    ensures FirstError(lib, now, keys, SortedKeys(keys.Keys), {}).None? <==>
      && (forall p :: p in keys ==> Sound(lib, now, keys[p]))
      && (forall p, q :: p in keys && q in keys && keys[p].thumbprint == keys[q].thumbprint ==> p == q)
  {
    var sound: string -> bool := p => p in keys && Sound(lib, now, keys[p]);
    var name: string -> string := p => if p in keys then keys[p].thumbprint else p;
    NoErrorMeans(lib, now, keys, SortedKeys(keys.Keys), {}, sound, name);
    FreshKeys(sound, name, keys.Keys);
  }

  lemma AcceptedParses(lib: Lib, now: int, parsed: Option<KeyBindingSet>, s: KeyBindingSet)
    ensures VerifyParsed(lib, parsed, now) == Ok(s) <==>
      && parsed == Some(s) && (forall p :: p in s.keys ==> Sound(lib, now, s.keys[p]))
      && (forall p, q :: p in s.keys && q in s.keys && s.keys[p].thumbprint == s.keys[q].thumbprint ==> p == q)
  {
    CleanKeys(lib, now, s.keys);
  }

  /** A record is accepted exactly when it passes the schema, parses, every entry is a currently
      valid key under its own thumbprint, and no key serves two purposes. */
  lemma AcceptedRecords(lib: Lib, value: Json, now: int, s: KeyBindingSet)
    ensures Verify(lib, value, now) == Ok(s) <==>
      && lib.schema("key-binding.v1", value) && ParseSet(value) == Some(s)
      && (forall p :: p in s.keys ==> Sound(lib, now, s.keys[p]))
      && (forall p, q :: p in s.keys && q in s.keys && s.keys[p].thumbprint == s.keys[q].thumbprint ==> p == q)
  {
    AcceptedParses(lib, now, ParseSet(value), s);
  }

  lemma SortedKeysDiffer(s: set<string>, i: nat, j: nat)
    requires i < j < |SortedKeys(s)|
    ensures SortedKeys(s)[i] != SortedKeys(s)[j]
  {
    SortedKeysAscend(s, i, j);
    StringOrder();
  }
}
