# Akson protocol core: a Dafny model

Akson is a protocol core for agents that hire each other: an identity token carried by hand, a
first-contact introduction over TLS, signed contracts whose inputs are bound to a manifest, a
revision chain with one acceptance, effects that happen at most once, and signed result bundles.
This project models that logic and proves what it promises, over every input or every run.

| file | what it models |
|---|---|
| `Xor`, `Bech32m`, `Regroup`, `Token` | the identity-token codec: checksum register, 8/5-bit regrouping, encoder, decoder |
| `Iteration`, `Polynomials`, `Field`, `Substitutions` | scattered errors in a token: the checksum polynomial and its roots in the field of 1024 elements |
| `Json`, `Utf8`, `Decimal`, `Ordering`, `Lists`, `Ascii`, `Options` | RFC 8785 text and its strict reader, UTF-8, decimal printing, orders and stable sorting, sequences |
| `Crypto`, `Dsse`, `Jws`, `KeyBinding` | JWK thumbprints, DSSE envelopes, detached JWS and card signatures, key-binding records |
| `Introduction`, `World`, `Session`, `Pinning` | the introduction protocol, its runs on a hostile network, pinned identities and change detection |
| `Contracts`, `Chain`, `Manifest`, `Receive` | contract revisions and decisions, the head of a Task, input binding, the receive path and risk card |
| `Attempts` | work-order attempts and processor sub-attempts over all event sequences |
| `IJson`, `Sarif` | the limit-threading I-JSON visitor, bounded SARIF extraction |
| `ResultManifest`, `Outcome` | result manifests, requester outcomes, evidence slots |

Conventions:

- A Rust `String` or `Vec<u8>` is a Dafny `string` with one `char` per byte, so lengths and orders are
  those of bytes. Key purposes are their kebab-case names where they key a map.
- Hash functions, base64, curve-point checks, JSON Schema validation, RFC 3339 parsing, serde's
  typed reading, the JSON grammar and the protobuf mapping are function parameters (`Crypto.Lib`, `Receive.Intake`,
  `ResultManifest.Reader`, `IJson.Numbers`). Nothing is assumed of them except what a theorem's
  `requires` names: a strict base64 codec, or that two named inputs do not collide.
- Ed25519 is ideal: a signature is the pair of key and message. A run is a list of steps in which
  honest parties sign transcripts, cards and envelopes, and an adversary signs anything with other
  keys; whatever is delivered is assembled from signatures seen so far.
- JSON objects are maps and numbers carry their canonical spelling. Members are written in the order
  of their names' UTF-16 code units, computed on UTF-8 bytes.
- The code reports a non-canonical result payload as a wrong payload type too; here the two refusals
  are `NotCanonical` and `WrongPayloadType`.
- Wrapping is written out where it can happen: the 32-bit accumulator of the token codec, the 32-bit
  Part index, the 64-bit revision and byte totals. The contract schema caps declared Part indices at
  255, so the source's own Messages are in the case of `CappedIndicesNeverWrap`.
- Loops of the source are methods, proved equal to a function or against a stated property; the
  parser state of the I-JSON visitor is a class.

Where the code and its documentation differ, the model follows the code:

- Assembling a manifest is documented to be independent of input order. It is, exactly when equal sort
  keys mean equal entries (`AssemblyIsBlindExactly`, with a counterexample beside it).
- A `Failed` processor call is documented to have transmitted nothing. The transition function does
  not know; `FailureIsCleanExactly` says when it is so.
- Revisions of a Task are documented as one contract's. The head compares revision numbers and
  digests only; `OneContractExactly` says what a caller has to compare, and `HistoriesMayMixContracts`
  when comparing nothing fails.
- The transcript's field comment speaks of a length-prefixed domain string; the code, and the model,
  insert it as a JSON member.
- A slot requirement is documented as met by its record, whatever the order. With repeated ids the
  first record decides (`PassesInEveryOrderExactly`).
- Unknown SARIF levels are documented to map to `none`. A level that is not a string counts as absent,
  hence `warning` (`NumberLevelIsAWarning`); `ReportedLevels` gives the exact condition.

## Model

| member | source | states |
|---|---|---|
| Bech32m.StepIsLinear | crates/akson-crypto/src/token.rs:175-183 | one register step is linear over XOR in state and symbol together |
| Bech32m.BurstIsDetected | crates/akson-crypto/src/token.rs:166-185 | from any 30-bit state, symbol strings of one length that end in the same state and agree outside six consecutive symbols are equal |
| Bech32m.TwoTokensDifferWidely | crates/akson-crypto/src/token.rs:187-210 | two strings of any one length that verify under one human-readable part cannot differ only inside a window of six symbols |
| Substitutions.ValueOfStep | crates/akson-crypto/src/token.rs:175-183 | at a root of the generator polynomial, in the field of 1024 elements, reading a symbol is one step of Horner's rule |
| Field.GeneratorSeparates | crates/akson-crypto/src/token.rs:166-185 | the field's generator has order 1023: the first 1023 multiples of anything but zero differ |
| Substitutions.ReadingKeepsValue | crates/akson-crypto/src/token.rs:166-185 | at a root, what a string leaves in the register is worth what the string is worth as a polynomial |
| Substitutions.TripleLeavesTrace | crates/akson-crypto/src/token.rs:166-185 | a difference confined to any three positions of at most 1023 symbols reads as zero only if it is zero |
| Substitutions.ThreeSubstitutionsAreDetected | crates/akson-crypto/src/token.rs:187-210 | two strings of at most 1023 symbols that verify under one human-readable part cannot differ at only three positions, wherever they are |
| Bech32m.ChecksumVerifies | crates/akson-crypto/src/token.rs:195-210 | appending the computed checksum to any data under any human-readable part verifies |
| Bech32m.ChecksumIsUnique | crates/akson-crypto/src/token.rs:195-210 | six symbols that make data verify are exactly the computed checksum |
| Bech32m.ShortestVector | crates/akson-crypto/src/token.rs:166-210 | the register, generator words, expansion and constant agree with the shortest valid string of BIP-350 |
| Bech32m.ExpansionSpells | crates/akson-crypto/src/token.rs:187-193 | the expansion of a human-readable part spells each byte in order: its high three bits before a zero symbol, its low five after it |
| Bech32m.ComputePolymod | crates/akson-crypto/src/token.rs:166-185 | the outer loop absorbs every symbol into the register |
| Bech32m.ComputeStep | crates/akson-crypto/src/token.rs:176-182 | the inner loop over the five generator words performs one register step |
| Bech32m.ComputeChecksum | crates/akson-crypto/src/token.rs:195-206 | the six digits of the loop make the data verify, and no other six do |
| Regroup.ToFiveBit | crates/akson-crypto/src/token.rs:213-229 | the groups spell the same number as the bytes, padded with fewer than five zero bits, although the accumulator wraps at 32 bits |
| Regroup.ToEightBit | crates/akson-crypto/src/token.rs:233-249 | returns exactly the bytes the groups spell, and nothing exactly when there are none: over-long or nonzero padding |
| Regroup.SpellsIsOneToOne | crates/akson-crypto/src/token.rs:213-249 | groups and bytes that spell one another determine each other |
| Token.EncodeToken | crates/akson-crypto/src/token.rs:90-103 | yields the token of version byte and key, 65 characters long |
| Token.TokenExpansion | crates/akson-crypto/src/token.rs:187-193 | the eleven symbols the checksum reads for the prefix `akson` |
| Token.VerdictExactly | crates/akson-crypto/src/token.rs:147-161 | each verdict on a payload (length, version, weak key, key) has exactly one cause, read off its bytes |
| Token.ReadSymbols | crates/akson-crypto/src/token.rs:132-139 | reads the text back to its symbols exactly when every character has one, and otherwise reports the first that has none |
| Token.TokenParts | crates/akson-crypto/src/token.rs:124-146 | split at the last separator, a lowercase string is a token exactly when length, prefix, checksum and padding checks pass |
| Ascii.LowerKeepsPlace | crates/akson-crypto/src/token.rs:124-124 | folding maps each capital to the small letter in its place and changes nothing else |
| Token.TokenIsOneToOne | crates/akson-crypto/src/token.rs:90-162 | a payload has one token and a token one payload |
| Token.DecodeToken | crates/akson-crypto/src/token.rs:107-162 | accepts exactly the single-case spellings of a usable 32-byte key's only token; any well-formed token gets the verdict on its payload; the length, case, prefix, character, checksum and payload errors are each returned exactly for their cause, positions included |
| Token.RoundTrip | crates/akson-crypto/src/token.rs:90-162 | every 32-byte key encodes to 65 characters that decode to it, or to `WeakKey` when it is unusable |
| Token.MisreadTokenIsRefused | crates/akson-crypto/src/token.rs:107-162 | two tokens of one length that agree outside six neighbouring characters are equal |
| Token.MisreadTripleIsRefused | crates/akson-crypto/src/token.rs:107-162 | two tokens of one length, at most 90, that agree outside any three characters are equal |
| Json.CanonicalExactly | crates/akson-ext/src/jcs.rs:22-24 | a text is the canonical text of a value exactly when a strict reader (no space, only the short or lowercase escapes, names ascending) reads that value from it |
| Utf8.NameOrderIsUtf16 | crates/akson-ext/src/jcs.rs:8-10 | the order in which member names are written, on UTF-8 bytes, is the order of their UTF-16 code units |
| Json.CanonicalIsInjective | crates/akson-ext/src/jcs.rs:22-24 | different JSON values never share their canonical text |
| Ordering.StringLessMeans | crates/akson-evidence/src/result_manifest.rs:161-173 | one string is before another exactly when, at the first difference, it ends or has the smaller byte |
| Ordering.SortByIsStable | crates/akson-evidence/src/result_manifest.rs:161-173 | sorting by key keeps entries with equal keys in their given order |
| Ordering.SortBlindIffKeyDetermines | crates/akson-evidence/src/result_manifest.rs:161-173 | a key sort forgets input order exactly when equal keys mean equal entries |
| Crypto.ThumbprintNamesJwk | crates/akson-crypto/src/jwk.rs:58-75 | equal thumbprints mean equal JWKs or a collision between the two serializations |
| Crypto.JwkMembers | crates/akson-crypto/src/jwk.rs:58-75 | the thumbprint covers exactly `crv`, `kty` and `x` |
| Crypto.JwkNamesKey | crates/akson-crypto/src/jwk.rs:32-56 | a JWK names a key exactly when it is an Ed25519 octet key pair whose `x` decodes to that 32-byte curve point, and the JWK made from a key names it |
| Dsse.PaeIsInjective | crates/akson-ext/src/dsse.rs:58-69 | the pre-authentication encoding, decimal lengths included, determines type and payload |
| Dsse.PaeLayout | crates/akson-ext/src/dsse.rs:58-69 | tag, type length, type, payload length and payload, one space apart |
| Dsse.VerifiesExactly | crates/akson-ext/src/dsse.rs:93-123 | an envelope yields a payload exactly when it has one signature, under the key's id, by the key, over type and payload; the refusals on count, type, key id and base64 have exactly their causes |
| Dsse.DecodesAnyForm | crates/akson-ext/src/dsse.rs:125-134 | text decodes in any of the four base64 forms, the standard padded one first |
| Dsse.SignThenVerify | crates/akson-ext/src/dsse.rs:74-134 | a signed envelope verifies to its payload under its own type and key, and is refused under any other |
| Jws.SigningInputIsInjective | crates/akson-crypto/src/jws.rs:85-92 | the signing input determines header and payload |
| Jws.HeaderMembers | crates/akson-crypto/src/jws.rs:97-112 | the protected header holds exactly `alg`, `typ` and `kid` |
| Jws.VerifiesExactly | crates/akson-crypto/src/jws.rs:121-153 | a detached signature verifies exactly when its header reads as EdDSA, JOSE and the key's thumbprint and the key signed header, dot and encoded payload |
| Jws.RefusesExactly | crates/akson-crypto/src/jws.rs:121-153 | which of algorithm, type, key id and encoding refuses a readable header |
| Jws.UnreadableHeaderIsRefused | crates/akson-crypto/src/jws.rs:121-153 | a header that does not decode or does not parse is refused for just that |
| Jws.SignThenVerify | crates/akson-crypto/src/jws.rs:97-153 | a detached signature verifies for its own payload and key and for no other |
| KeyBinding.ParseOfSet | crates/akson-pairing/src/key_binding.rs:49-78 | reading a serialized record gives the record back |
| KeyBinding.VerifyRecord | crates/akson-pairing/src/key_binding.rs:76-127 | the loop with its set of thumbprints returns the first error in purpose order, or the record |
| KeyBinding.EntryRefusals | crates/akson-pairing/src/key_binding.rs:80-125 | each refusal of an entry (key, thumbprint, reuse, timestamps, interval, time) has exactly one cause |
| KeyBinding.AcceptedRecords | crates/akson-pairing/src/key_binding.rs:76-127 | a record is accepted exactly when it passes the schema, parses, every key is valid now under its own thumbprint, and no key serves two purposes |
| Introduction.SigningBytesIsInjective | crates/akson-pairing/src/introduction.rs:102-134 | two transcripts never share their signed bytes |
| Introduction.TranscriptMembers | crates/akson-pairing/src/introduction.rs:121-134 | exactly eleven members are signed, among them the domain `akson-introduction-v1` and the role by name |
| Introduction.SignerPresentsItsOwn | crates/akson-pairing/src/introduction.rs:286-291 | each role's record names that role's certificate |
| Introduction.ProofRefusals | crates/akson-pairing/src/bootstrap.rs:40-64 | a proof is missing, malformed, under an unusable key, or not the key's signature over the message, each exactly when reported |
| Introduction.AcceptedProofs | crates/akson-pairing/src/bootstrap.rs:35-74 | proofs pass exactly when the advertised purposes are the proved ones and each key signed the message |
| Introduction.BuildMaterial | crates/akson-pairing/src/introduction.rs:233-282 | the two loops yield the record over all keys and one proof per key, or fail exactly when a key is filed under a foreign purpose |
| Introduction.AcceptsExactly | crates/akson-pairing/src/introduction.rs:171-227 | the six checks pass exactly when record, certificate, root, card, profile and every proof over the verifier's own transcript are right |
| Introduction.PartyRefusals | crates/akson-pairing/src/introduction.rs:182-214 | certificate, missing root key, root, card signature and card profile are each refused exactly for their own cause, in this order |
| Introduction.RefusedFor | crates/akson-pairing/src/introduction.rs:171-227 | a refusal carries the cause of the first check that fails: record, party, proofs |
| Introduction.BuiltIsAccepted | crates/akson-pairing/src/introduction.rs:171-291 | what one side builds, the other accepts against the imported root on the same transcript, with exactly the bindings built |
| World.HonestSignaturesAreRecorded | crates/akson-pairing/src/introduction.rs:268-275 | on every run, a signature under an honest key was made by a recorded signing operation |
| World.TranscriptIsNoEnvelope | crates/akson-pairing/src/introduction.rs:121-134 | no transcript's bytes are a pre-authentication encoding |
| World.TranscriptIsNoJws | crates/akson-crypto/src/jws.rs:83-92 | no transcript's bytes are a JWS signing input |
| World.EnvelopeIsNoJws | crates/akson-ext/src/dsse.rs:56-69 | no pre-authentication encoding is a JWS signing input |
| World.AdvertisedKeyAgrees | crates/akson-pairing/src/bootstrap.rs:35-74 | on every run, each advertised honest key was used by its holder to build material for this very session and record |
| World.Agreement | crates/akson-pairing/src/introduction.rs:171-282 | on every run, accepting material for an honest imported root means its holder built it for the same role, roots, certificates, exporter, nonce and versions, and the accepted bindings are exactly those built, short of a collision between two named inputs |
| World.CardAgrees | crates/akson-proto/src/card_sig.rs:65-97 | on every run, the accepted card was issued by the root's holder, field for field |
| World.HonestRunSucceeds | crates/akson-pairing/src/introduction.rs:229-282 | a party that issues its card and builds its material is accepted by the peer that imported its root, from what the network then holds |
| World.CardIsNotBound | crates/akson-pairing/src/introduction.rs:201-220 | the same record and proofs are accepted with another card exactly when the root signed that card and it has the profile |
| World.EnvelopeAgrees | crates/akson-ext/src/dsse.rs:93-123 | on every run, an envelope accepted under an honest key was signed by its holder with exactly this type and payload |
| Session.AssembleIdentity | crates/akson-pairing/src/session.rs:32-94 | the loop lists every binding in purpose order or stops at the first unknown purpose |
| Session.IdentitySays | crates/akson-pairing/src/session.rs:64-93 | issuer, agent, certificate, root thumbprint and card digest of a pinned identity are the record's and the card's |
| Session.EndpointIsFirstUrl | crates/akson-pairing/src/session.rs:39-46 | the endpoint is the URL of the card's first interface, and empty when there is none |
| Session.BindingsListed | crates/akson-pairing/src/session.rs:53-62 | one binding per purpose, in the order of their names, with the key's thumbprint; none for a purpose outside the closed set |
| Session.RequiredExactly | crates/akson-pairing/src/session.rs:99-113 | an extension is listed as often as entries of the card mark it required |
| Session.SortedUrisAgree | crates/akson-pairing/src/session.rs:100-113 | sorted required URIs are equal exactly when they are the same multiset |
| Session.ProjectionDigest | crates/akson-pairing/src/session.rs:69-71 | without a collision, the projection digest is equal exactly when bindings and pinned card fields are |
| Session.ReasonIsFirst | crates/akson-pairing/src/lifecycle.rs:121-141 | the reason given is the first of issuer, certificate, keys and projection that differs |
| Session.NoSilentChange | crates/akson-pairing/src/lifecycle.rs:121-141 | no change is reported exactly when bindings are equal and cards agree on interfaces, schemes, requirements and how often each extension is required; agent name and endpoint then agree |
| Pinning.ChangesAreTheHolders | crates/akson-pairing/src/lifecycle.rs:121-141 | on every run, when material is accepted twice for one honest root, short of a collision between named inputs, no change is reported exactly when its holder built equal bindings both times and issued two cards that agree on everything pinned |
| Chain.EveryRunIsConsistent | crates/akson-contract/src/chain.rs:105-146 | after any sequence of revisions and acceptances the history is revisions 0..n, each naming its predecessor's digest, the head is its end, and at most one acceptance succeeded |
| Chain.LockIsFinal | crates/akson-contract/src/chain.rs:105-146 | once locked, no later event changes anything |
| Chain.LockNamesTheHead | crates/akson-contract/src/chain.rs:139-146 | an acceptance that locks names the digest of the head it found |
| Chain.RevisionVerdict | crates/akson-contract/src/chain.rs:105-134 | a revision moves the head to itself or is stale for exactly one of five reasons |
| Chain.AcceptanceVerdict | crates/akson-contract/src/chain.rs:139-146 | an acceptance locks the open head it names or fails for exactly one of three reasons |
| Chain.AdvancesExactlyWhenChained | crates/akson-contract/src/chain.rs:105-134 | a revision advances an unlocked head exactly when it extends the chain, 64-bit wrap included |
| Chain.EqualHeadsEqualHistories | crates/akson-contract/src/chain.rs:105-146 | two endpoints whose heads carry one digest hold identical whole histories |
| Chain.DecisionLocksItsProposal | crates/akson-contract/src/decision.rs:148-163 | a decision bound to a proposal locks the head exactly when that proposal is the open head |
| Contracts.BindsDecision | crates/akson-contract/src/decision.rs:148-163 | a decision binds exactly when it names contract, revision and digest and its performer decided; otherwise the first that differs is named |
| Contracts.ProposalVerifies | crates/akson-contract/src/proposal.rs:90-99 | a proposal verifies exactly when an envelope of the contract type carries its payload under a proposal key and it is what the payload reads as |
| Contracts.IdentityRefusals | crates/akson-contract/src/proposal.rs:104-118 | requester and performer are refused for their own mismatch |
| Chain.OneContractExactly | crates/akson-contract/src/chain.rs:105-134 | over every run, the history stays within one contract exactly when each revision that meets the guard of the extending branch carries, before the call, the contract id the Task began with |
| Chain.CheckedPredecessorsSuffice | crates/akson-contract/src/chain.rs:105-134 | over every run in which each follow-up revision names a predecessor of its own contract, the history is one contract's |
| Chain.HistoriesMayMixContracts | crates/akson-contract/src/chain.rs:105-134 | any two parsed revisions 0 and 1 of different contracts that chain by digest end up in one history |
| Manifest.BindInputs | crates/akson-contract/src/manifest.rs:102-189 | the three loops over two hash maps return the first violation, or none |
| Manifest.CheckedExactly | crates/akson-contract/src/manifest.rs:153-188 | a Part passes exactly when media type, kind, rule, canonical length and digest are the entry's; otherwise the first that differs is named |
| Manifest.BindsExactly | crates/akson-contract/src/manifest.rs:102-189 | binding succeeds exactly when coordinates are distinct on both sides, the two coordinate sets are equal and every matched pair agrees |
| Manifest.BindingIsABijection | crates/akson-contract/src/manifest.rs:102-149 | on success there are as many entries as Parts and each Part has exactly one entry, even with repeated entry ids |
| Manifest.OrderDoesNotMatter | crates/akson-contract/src/manifest.rs:102-149 | permuting entries or Parts does not change acceptance |
| Manifest.BytesAreConserved | crates/akson-contract/src/manifest.rs:182-187 | on success declared byte lengths sum to the canonical bytes supplied |
| Receive.ExtractProposal | crates/akson-contract/src/extraction.rs:55-100 | the loop separates envelope and inputs, or returns the first error |
| Receive.ControlIsByMediaType | crates/akson-contract/src/extraction.rs:60-64 | the control Part is known by its media type alone |
| Receive.InputExactly | crates/akson-contract/src/extraction.rs:74-96 | a Part is an input exactly when it holds text or JSON data; otherwise it is empty, not JSON or unsupported, with its index |
| Receive.OneControlPart | crates/akson-contract/src/extraction.rs:55-100 | a Message that splits has exactly one control Part, and every other Part is an input with its media type, content and cast index, in order |
| Receive.SplitsExactly | crates/akson-contract/src/extraction.rs:55-100 | a Message splits exactly when one readable control Part stands among readable text and data Parts |
| Receive.PositionsAreExact | crates/akson-contract/src/extraction.rs:59-60 | indices are the Parts' positions exactly up to 2^32 Parts, or one more with the control Part last |
| Receive.ReceivesExactly | crates/akson-contract/src/receive.rs:66-92 | a Message is accepted exactly when it splits, its proposal verifies, both identities match, its inputs bind and the time is in the window |
| Receive.RefusedFor | crates/akson-contract/src/receive.rs:66-92 | a refusal carries the cause of the first step that fails: split, proposal, identities, binding |
| Receive.RefusedByTime | crates/akson-contract/src/receive.rs:84-91 | too early, too late and unreadable times are told apart |
| Receive.ReceivedIsWhole | crates/akson-contract/src/receive.rs:66-92 | an accepted Message has one envelope Part and one entry per other Part; every entry names, under this Message's id, the very Part at its index with equal bytes, except exactly when 2^32 + 1 Parts start with the envelope: then an entry points at it |
| Receive.CappedIndicesNeverWrap | crates/akson-contract/src/receive.rs:66-92 | when a cap on declared indices leaves room below 2^32, an accepted Message has at most two Parts more than the cap and every entry names its Part without exception |
| Receive.AcceptanceWindow | crates/akson-contract/src/expiry.rs:63-86 | acceptance times are exactly from five seconds before creation until expiry, and none for an empty or inverted window |
| Contracts.ValidityExactly | crates/akson-contract/src/expiry.rs:63-86 | before, in and after the window, with five seconds of leeway before it; an empty or inverted window is over |
| Receive.ExpiryIsFinal | crates/akson-contract/src/expiry.rs:70-86 | a contract that has expired is expired at every later time |
| Receive.ContractMessageIdIsNotCompared | crates/akson-contract/src/receive.rs:74-91 | two Messages with the same inputs whose verified contracts differ only in their message id, hence in payload and digest, are accepted at the same times |
| Receive.TotalBytes | crates/akson-contract/src/risk_card.rs:188-192 | the loop's total is the sum of all exposed inputs' lengths modulo 2^64, although it wraps at every step |
| Receive.CardShows | crates/akson-contract/src/risk_card.rs:117-136 | the card shows requester, revision and digest, and each entry's id, media type, length and both visibilities, in the order signed |
| Receive.CardShowsWhatWasSupplied | crates/akson-contract/src/risk_card.rs:117-136 | the total shown for a received proposal is the number of canonical bytes supplied, exactly when that number is below 2^64 |
| Receive.ReceivedWasProposed | crates/akson-contract/src/proposal.rs:90-99 | on every run, an accepted proposal was signed by the holder of the pinned key, byte for byte |
| Attempt.EveryRunIsKnown | crates/akson-authority/src/attempt.rs:125-148 | whatever arrives, the accepted events form one of twelve histories, each tied to its state |
| Attempt.EveryHistoryHappens | crates/akson-authority/src/attempt.rs:125-148 | every one of those histories is accepted and leads to its state |
| Attempt.AtMostOnce | crates/akson-authority/src/attempt.rs:125-148 | claim and start are accepted at most once, success is exactly claim, start, succeed, and a clean cancel means no start |
| Attempt.AcceptedEventsDescend | crates/akson-authority/src/attempt.rs:125-148 | every accepted event lowers the rank of the state |
| Attempt.TerminalIsFinal | crates/akson-authority/src/attempt.rs:129-131 | a finished attempt ignores everything that follows |
| Attempt.CrashIsHonest | crates/akson-authority/src/attempt.rs:138-145 | recovery after a claim leaves the attempt ambiguous for good; before the claim nothing had been accepted |
| SubAttempt.EveryCallIsKnown | crates/akson-broker/src/subattempt.rs:126-150 | whatever arrives, the accepted events form one of eight histories, and a prepared or cancelled call has sent nothing |
| SubAttempt.EveryHistoryHappens | crates/akson-broker/src/subattempt.rs:126-150 | every one of those histories is accepted and leads to its state |
| SubAttempt.DispatchedAtMostOnce | crates/akson-broker/src/subattempt.rs:126-150 | a call is dispatched at most once, and exactly once if any byte left |
| SubAttempt.NothingLeavesAfterTheEnd | crates/akson-broker/src/subattempt.rs:133-135 | after the end of a call no event is accepted and no byte leaves |
| SubAttempt.FailureIsCleanExactly | crates/akson-broker/src/subattempt.rs:40-42 | every run that ends failed has the action that dispatched and the one that reported failure, and nothing was sent exactly when the broker offered no byte between the two |
| SubAttempt.FailureMayFollowATransmission | crates/akson-broker/src/subattempt.rs:40-42 | a run that ends failed after a byte has left |
| IJson.VisitIsExact | crates/akson-ext/src/ijson.rs:132-232 | visiting succeeds exactly when the text is JSON to the end of the document and depth, node count so far, keys and numbers allow it, and then returns the document's value and adds its node count |
| IJson.ParseState.Deserialize | crates/akson-ext/src/ijson.rs:115-142 | the visitor with its shared counter and violation slot does what the function says, first violation recorded, a syntax error leaving none |
| IJson.ParseState.VisitSeq | crates/akson-ext/src/ijson.rs:198-212 | the array loop visits items in order and stops at the first violation |
| IJson.ParseState.VisitMap | crates/akson-ext/src/ijson.rs:214-231 | the object loop inserts members in order and reports a repeated key once its value has been read |
| IJson.ParseWithLimits | crates/akson-ext/src/ijson.rs:58-94 | a text is accepted exactly when it is JSON, bytes, nesting and node count are within the clamped limits, no object repeats a key and every integer is safe; the result is the value spelled; otherwise the error is the size, the first violation met, or the syntax error that precedes any |
| ResultManifest.AssemblyOrders | crates/akson-evidence/src/result_manifest.rs:154-210 | assembling permutes every array into the order the check accepts |
| ResultManifest.OutputOrder | crates/akson-evidence/src/result_manifest.rs:161-168 | two outputs are in order exactly by role, then artifact, then Part index, then digest |
| ResultManifest.EvidenceOrder | crates/akson-evidence/src/result_manifest.rs:169-171 | two evidence entries are in order exactly by role, payload type and digest |
| ResultManifest.SlotOrder | crates/akson-evidence/src/result_manifest.rs:172-172 | two slots are in order exactly by id |
| ResultManifest.OmissionOrder | crates/akson-evidence/src/result_manifest.rs:173-173 | two omissions are in order exactly by subject and reason |
| ResultManifest.AssemblyIsTheOnlyOrder | crates/akson-evidence/src/result_manifest.rs:200-210 | when keys determine entries, the ordering check accepts the assembled arrangement and no other |
| ResultManifest.AssemblyIsBlindExactly | crates/akson-evidence/src/result_manifest.rs:149-182 | assembly forgets input order exactly when, in every array, equal sort keys mean equal entries |
| ResultManifest.MediaTypeIsNotInTheKey | crates/akson-evidence/src/result_manifest.rs:161-168 | two outputs differing only in media type assemble differently in the two orders |
| ResultManifest.CanonicalNamesManifest | crates/akson-evidence/src/result_manifest.rs:213-217 | two manifests never share their canonical text |
| ResultManifest.SlotWords | crates/akson-evidence/src/result_manifest.rs:90-110 | results and disclosures by their names on the wire |
| ResultManifest.DigestNamesManifest | crates/akson-evidence/src/result_manifest.rs:219-223 | valid manifests have equal bundle digests exactly when they are equal, without a collision |
| ResultManifest.SameContentsSameDigest | crates/akson-evidence/src/result_manifest.rs:154-223 | the same contents in any order give the same bundle digest when keys determine entries |
| ResultManifest.ManifestVerifies | crates/akson-evidence/src/result_manifest.rs:241-268 | a manifest verifies exactly when an envelope of the result type carries, under a result key, the canonical text of a value that passes the schema and reads as this valid manifest |
| ResultManifest.PurposeIsChecked | crates/akson-evidence/src/result_manifest.rs:241-252 | another payload type and another key purpose are refused for just that |
| ResultManifest.PayloadRefusals | crates/akson-evidence/src/result_manifest.rs:253-268 | text that is not JSON, fails the schema, is not canonical, is not a manifest or is out of order is refused for just that |
| ResultManifest.VerifiedIsNamedByItsDigest | crates/akson-evidence/src/result_manifest.rs:241-268 | a verified manifest passes schema and ordering, and the digest returned with it is its own bundle digest when typed reading loses nothing of what the schema admits |
| ResultManifest.VerifiedWasSigned | crates/akson-evidence/src/result_manifest.rs:241-268 | on every run, a manifest verified under an honest key was signed by its holder in exactly its canonical text |
| ResultManifest.SignThenVerify | crates/akson-evidence/src/result_manifest.rs:228-268 | a valid signed manifest verifies to itself with its own bundle digest |
| Outcome.OutcomeBindsExactly | crates/akson-evidence/src/outcome.rs:103-173 | an outcome made for one valid manifest binds to another exactly when they are equal, with or without reason and note |
| Outcome.BindsWhatWasMade | crates/akson-evidence/src/outcome.rs:159-173 | an outcome binds to a manifest exactly when it is the one made for it, up to reason and note |
| Outcome.InvalidIsNeverBound | crates/akson-evidence/src/outcome.rs:103-173 | an invalid manifest has no outcome and none binds to it |
| Slots.SlotsPassExactly | crates/akson-evidence/src/slots.rs:63-95 | with distinct ids, slots pass exactly when every conclusive record names evidence and every requirement is met by its record |
| Slots.RequirementRefusals | crates/akson-evidence/src/slots.rs:76-95 | a requirement fails on a missing record, then on its result, then on what is withheld |
| Slots.AssemblyKeepsTheVerdict | crates/akson-evidence/src/slots.rs:63-95 | the verdict on an assembled manifest is the verdict on the slots as supplied, in any order |
| Slots.PassesInEveryOrderExactly | crates/akson-evidence/src/slots.rs:76-79 | with repeated ids, slots pass in every order exactly when every record under a required id meets it |
| Slots.RepeatedIdsAreOrderSensitive | crates/akson-evidence/src/slots.rs:76-79 | a passing and a failing record under one id pass in one order and fail in the other |
| Sarif.NearestCharBoundary | crates/akson-evidence/src/sarif.rs:196-202 | the loop finds the largest boundary at or below the limit |
| Utf8.ValidIsEncoded | crates/akson-evidence/src/sarif.rs:196-202 | valid text is an encoding of scalar values |
| Utf8.EncodedIsValid | crates/akson-evidence/src/sarif.rs:196-202 | every encoding of scalar values is valid text |
| Sarif.BoundaryExactly | crates/akson-evidence/src/sarif.rs:196-202 | boundaries are exactly the places where valid text can be cut |
| Sarif.TruncationIsClean | crates/akson-evidence/src/sarif.rs:176-178 | a message becomes a valid UTF-8 prefix within the limit, at most three bytes short of it |
| Sarif.ExtractFindings | crates/akson-evidence/src/sarif.rs:150-184 | findings are the capped in-order prefix of all runs' results, and findings plus truncated is their total |
| Sarif.MessagesAreClean | crates/akson-evidence/src/sarif.rs:160-184 | every message in a report is a valid UTF-8 prefix of its own result's message, within the limit and at most three bytes short of it |
| Sarif.ReportedLevels | crates/akson-evidence/src/sarif.rs:52-74 | a finding's level is `none` exactly when its result names an unknown one as a string, and a warning exactly when the level is `warning` or not a string |
| Sarif.FindingIsReadFrom | crates/akson-evidence/src/sarif.rs:164-183 | rule, level and message of a finding come from `ruleId`, `level` and `message.text`, empty when absent |
| Sarif.ResultsAreReadFrom | crates/akson-evidence/src/sarif.rs:152-159 | a run's results are its `results` list, empty when absent |
| Sarif.ToolIsReadFrom | crates/akson-evidence/src/sarif.rs:141-148 | the tool name is the first run's `tool.driver.name` |
| Sarif.NumberLevelIsAWarning | crates/akson-evidence/src/sarif.rs:52-74 | an unknown level that is a number is reported as a warning |
| Sarif.ParseSarif | crates/akson-evidence/src/sarif.rs:114-193 | accepts exactly I-JSON within the limits of SARIF shape, with the digest of the bytes as given, the tool name of the first run, the capped findings with their truncation count, and cleanly cut messages |

## Left out

- Sandbox, launcher, command line, MCP server, model adapters and stores: I/O and plumbing.
- Ed25519, X.509, SHA-256, base64, JSON Schema, RFC 3339, protobuf and serde internals: parameters.
- Nonce consumption, operation budgets, idempotency tables and the durable compare-and-swap: they live in the store and daemon.
- Status and state string forms, presentation splitting, capability and policy tables: easy members only.
- Risk-card prose: only the projection of inputs and the byte total are modelled.
- TLS handshake signatures by endpoint keys: honest keys sign only transcripts, cards and envelopes here.
- World.Agreement: does not claim freshness, because consuming the nonce is the daemon's duty.
- Manifest.BindInputs: has no canonicalization failure, because every modelled JSON value has a canonical text.
- Four substitutions: the three roots of the checksum polynomial settle three; the fourth rests on an exhaustive search over positions.
- Decimal fractions: doubles are reals, and how they are rounded and spelled is a parameter.
- Release arithmetic: 64-bit additions wrap, as in a release build; a debug build stops instead.
