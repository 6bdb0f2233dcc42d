/** DSSE v1 envelopes, one Ed25519 signature each, key id derived from the key. */
module Dsse {
  import Decimal
  import opened Options
  import opened Crypto

  datatype EnvelopeSignature = EnvelopeSignature(keyid: string, sig: string)

  datatype Envelope = Envelope(payload: string, payloadType: string, signatures: seq<EnvelopeSignature>)

  datatype Error = SignatureCount(count: nat) | PayloadType | KeyId | Base64(field: string) | BadSignature

  datatype Result = Ok(payload: string) | Err(error: Error)

  // ---- Pre-authentication encoding ----

  /** A decimal length, a space and what follows. */
  function Sized(n: nat, rest: string): string {
    Decimal.Print(n) + " " + rest
  }

  function Pae(payloadType: string, payload: string): string {
    "DSSEv1 " + Sized(|payloadType|, payloadType + " " + Sized(|payload|, payload))
  }

  lemma {:induction false} SizedIsUnambiguous(m: nat, n: nat, x: string, y: string)
    requires Sized(m, x) == Sized(n, y)
    ensures m == n && x == y
  {
    var a, b := Decimal.Print(m), Decimal.Print(n);
    assert Sized(m, x)[|a|] == ' ' && Sized(n, y)[|b|] == ' ';
    assert |a| == |b| by {
      assert forall i :: 0 <= i < |a| ==> Sized(m, x)[i] == a[i] != ' ';
      assert forall i :: 0 <= i < |b| ==> Sized(n, y)[i] == b[i] != ' ';
    }
    assert a == Sized(m, x)[..|a|] == b;
    assert x == Sized(m, x)[|a| + 1..] == y;
    Decimal.PrintIsInjective(m, n);
  }

  lemma Appends(q: string, c: string, r: string)
    ensures q + (c + " " + r) == q + c + " " + r
  {
  }

  /** Tag, type length, type, payload length and payload, one space apart. */
  lemma PaeLayout(t: string, p: string)
    ensures Pae(t, p) == "DSSEv1 " + Decimal.Print(|t|) + " " + t + " " + Decimal.Print(|p|) + " " + p
  {
    var a, b := Decimal.Print(|t|), Decimal.Print(|p|);
    Appends("DSSEv1 ", a, t + " " + (b + " " + p));
    Appends("DSSEv1 " + a + " ", t, b + " " + p);
    Appends("DSSEv1 " + a + " " + t + " ", b, p);
  }

  /** Distinct (type, payload) pairs never share an encoding. */
  lemma PaeIsInjective(t: string, p: string, u: string, q: string)
    requires Pae(t, p) == Pae(u, q)
    ensures t == u && p == q
  {
    var x, y := t + " " + Sized(|p|, p), u + " " + Sized(|q|, q);
    assert Sized(|t|, x) == Pae(t, p)[7..] == Pae(u, q)[7..] == Sized(|u|, y);
    SizedIsUnambiguous(|t|, |u|, x, y);
    assert t == x[..|t|] == u;
    assert Sized(|p|, p) == x[|t| + 1..] == y[|t| + 1..] == Sized(|q|, q);
    SizedIsUnambiguous(|p|, |q|, p, q);
  }

  // ---- Signing and verifying ----

  function Sign(lib: Lib, payloadType: string, payload: string, key: Key): Envelope {
    Envelope(lib.standard.encode(payload), payloadType,
             [EnvelopeSignature(KeyIdOf(lib, key),
               lib.standard.encode(lib.sigBytes(Signature(key, Pae(payloadType, payload)))))])
  }

  /** Standard or URL-safe, padded or not. */
  function DecodeB64(lib: Lib, s: string): Option<string> {
    if lib.standard.decode(s).Some? then lib.standard.decode(s)
    else if lib.standardNoPad.decode(s).Some? then lib.standardNoPad.decode(s)
    else if lib.urlSafe.decode(s).Some? then lib.urlSafe.decode(s)
    else lib.urlSafeNoPad.decode(s)
  }

  function ReadSignature(lib: Lib, s: string): Option<Signature> {
    var bytes := DecodeB64(lib, s);
    if bytes.Some? then lib.sigFrom(bytes.value) else None
  }

  function Verify(lib: Lib, envelope: Envelope, expectedType: string, key: Key): Result {
    if |envelope.signatures| != 1 then Err(SignatureCount(|envelope.signatures|))
    else if envelope.payloadType != expectedType then Err(PayloadType)
    else if envelope.signatures[0].keyid != KeyIdOf(lib, key) then Err(KeyId)
    else
      var payload := DecodeB64(lib, envelope.payload);
      var signature := ReadSignature(lib, envelope.signatures[0].sig);
      if payload.None? then Err(Base64("payload"))
      else if signature.None? then Err(Base64("sig"))
      else if !VerifyStrict(lib, key, Pae(envelope.payloadType, payload.value), signature.value) then Err(BadSignature)
      else Ok(payload.value)
  }

  /** Any of the four base64 forms decodes, the standard padded one first. */
  lemma DecodesAnyForm(lib: Lib, s: string)
    ensures DecodeB64(lib, s).None? <==>
      && lib.standard.decode(s).None? && lib.standardNoPad.decode(s).None?
      && lib.urlSafe.decode(s).None? && lib.urlSafeNoPad.decode(s).None?
    ensures lib.standard.decode(s).Some? ==> DecodeB64(lib, s) == lib.standard.decode(s)
    ensures DecodeB64(lib, s) in
      {lib.standard.decode(s), lib.standardNoPad.decode(s), lib.urlSafe.decode(s), lib.urlSafeNoPad.decode(s)}
  {
  }

  /** The envelope carries one signature, under the key's own id and made by the key, over this type
      and payload. */
  predicate Carries(lib: Lib, e: Envelope, payloadType: string, key: Key, payload: string) {
    && e.payloadType == payloadType && DecodeB64(lib, e.payload) == Some(payload)
    && |e.signatures| == 1 && e.signatures[0].keyid == KeyIdOf(lib, key) && lib.strong(key)
    && ReadSignature(lib, e.signatures[0].sig) == Some(Signature(key, Pae(payloadType, payload)))
  }

  /** Verification yields a payload exactly when the envelope carries it, and otherwise names the first
      check that fails. */
  lemma VerifiesExactly(lib: Lib, e: Envelope, payloadType: string, key: Key, payload: string)
    ensures Verify(lib, e, payloadType, key) == Ok(payload) <==> Carries(lib, e, payloadType, key, payload)
    ensures Verify(lib, e, payloadType, key) == Err(SignatureCount(|e.signatures|)) <==> |e.signatures| != 1
    ensures Verify(lib, e, payloadType, key) == Err(PayloadType) <==>
      |e.signatures| == 1 && e.payloadType != payloadType
    ensures Verify(lib, e, payloadType, key) == Err(KeyId) <==>
      |e.signatures| == 1 && e.payloadType == payloadType && e.signatures[0].keyid != KeyIdOf(lib, key)
    ensures Verify(lib, e, payloadType, key) == Err(Base64("payload")) <==>
      && |e.signatures| == 1 && e.payloadType == payloadType && e.signatures[0].keyid == KeyIdOf(lib, key)
      && DecodeB64(lib, e.payload).None?
    ensures Verify(lib, e, payloadType, key) == Err(Base64("sig")) <==>
      && |e.signatures| == 1 && e.payloadType == payloadType && e.signatures[0].keyid == KeyIdOf(lib, key)
      && DecodeB64(lib, e.payload).Some? && ReadSignature(lib, e.signatures[0].sig).None?
  {
  }

  /** What a key holder signs, a verifier with that key and type reads back; any other type or key is refused. */
  lemma SignThenVerify(lib: Lib, payloadType: string, payload: string, key: Key, expectedType: string, other: Key)
    requires Strict(lib.standard) && SignaturesSurvive(lib) && lib.strong(key)
    ensures var r := Verify(lib, Sign(lib, payloadType, payload, key), expectedType, other);
      r == Ok(payload) <==> expectedType == payloadType && other == key
    ensures Verify(lib, Sign(lib, payloadType, payload, key), expectedType, other).Ok? ==>
      expectedType == payloadType && other == key
  {
    assert lib.standard.decode(lib.standard.encode(payload)) == Some(payload);
  }
}
