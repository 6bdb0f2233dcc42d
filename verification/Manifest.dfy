/** Binding the Parts of a Message to the signed input manifest, one to one. */
module Manifest {
  import opened Json
  import opened Options
  import opened Crypto
  import opened Contracts
  import opened Lists

  datatype PartBody = TextBody(text: string) | DataBody(value: Json)

  datatype InputPart = InputPart(messageId: string, partIndex: nat, mediaType: string, body: PartBody)

  datatype BindError = Unmanifested(part: Coords) | DuplicatePart(part: Coords)
    | MultiplyReferenced(a: string, b: string)
    | DanglingEntry(id: string) | KindMismatch(id: string) | MediaTypeMismatch(id: string)
    | ByteLengthMismatch(id: string) | DigestMismatch(id: string)

  datatype Coords = Coords(messageId: string, partIndex: nat)

  function EntryAt(e: InputEntry): Coords { Coords(e.messageId, e.partIndex) }

  function PartAt(p: InputPart): Coords { Coords(p.messageId, p.partIndex) }

  /** The bytes a Part's content is digested over. */
  function CanonicalBytes(body: PartBody): string {
    match body case TextBody(t) => t case DataBody(v) => Canonical(v)
  }

  function CheckPart(lib: Lib, e: InputEntry, p: InputPart): Option<BindError> {
    if p.body.TextBody? != e.kind.TextKind? then Some(KindMismatch(e.id))
    else if e.mediaType != p.mediaType then Some(MediaTypeMismatch(e.id))
    else if p.body.TextBody? != e.canonicalRule.Utf8Exact? then Some(KindMismatch(e.id))
    else if |CanonicalBytes(p.body)| != e.byteLength then Some(ByteLengthMismatch(e.id))
    else if lib.sha(CanonicalBytes(p.body)) != e.sha256 then Some(DigestMismatch(e.id))
    else None
  }

  /** Media type, kind and canonical rule are the Part's. */
  predicate SameForm(e: InputEntry, p: InputPart) {
    && e.mediaType == p.mediaType && e.kind == (if p.body.TextBody? then TextKind else DataKind)
    && e.canonicalRule == if p.body.TextBody? then Utf8Exact else Jcs
  }

  /** Entry and Part agree: same media type, text under the exact rule or data under the canonical one,
      and the declared length and digest of the text or of the value's canonical text. */
  predicate Agree(lib: Lib, e: InputEntry, p: InputPart) {
    && e.mediaType == p.mediaType
    && match p.body
       case TextBody(text) =>
         e.kind == TextKind && e.canonicalRule == Utf8Exact && |text| == e.byteLength && lib.sha(text) == e.sha256
       case DataBody(value) =>
         && e.kind == DataKind && e.canonicalRule == Jcs
         && |Canonical(value)| == e.byteLength && lib.sha(Canonical(value)) == e.sha256
  }

  /** A Part passes exactly when it agrees with its entry; otherwise the first disagreement is named. */
  lemma CheckedExactly(lib: Lib, e: InputEntry, p: InputPart)
    ensures CheckPart(lib, e, p).None? <==> Agree(lib, e, p)
    ensures CheckPart(lib, e, p) == Some(KindMismatch(e.id)) <==>
      || (p.body.TextBody? && e.kind == DataKind) || (p.body.DataBody? && e.kind == TextKind)
      || (e.mediaType == p.mediaType &&
          (e.canonicalRule == if p.body.TextBody? then Jcs else Utf8Exact))
    ensures CheckPart(lib, e, p) == Some(MediaTypeMismatch(e.id)) <==>
      (p.body.TextBody? <==> e.kind == TextKind) && e.mediaType != p.mediaType
    ensures CheckPart(lib, e, p) == Some(ByteLengthMismatch(e.id)) <==>
      SameForm(e, p) && |CanonicalBytes(p.body)| != e.byteLength
    ensures CheckPart(lib, e, p) == Some(DigestMismatch(e.id)) <==>
      && SameForm(e, p) && |CanonicalBytes(p.body)| == e.byteLength
      && lib.sha(CanonicalBytes(p.body)) != e.sha256
  {
  }

  // ---- The three passes ----

  /** Entries by coordinates, or the first pair that collides. */
  function IndexEntries(entries: seq<InputEntry>, index: map<Coords, InputEntry>)
      : (map<Coords, InputEntry>, Option<BindError>) {
    if entries == [] then (index, None)
    else if EntryAt(entries[0]) in index then
      (index, Some(MultiplyReferenced(index[EntryAt(entries[0])].id, entries[0].id)))
    else IndexEntries(entries[1..], index[EntryAt(entries[0]) := entries[0]])
  }

  /** The first Part that repeats coordinates, has no entry, or disagrees with its entry. */
  function FirstBadPart(lib: Lib, index: map<Coords, InputEntry>, parts: seq<InputPart>,
                        seen: set<Coords>): Option<BindError> {
    if parts == [] then None
    else
      var at := PartAt(parts[0]);
      if at in seen then Some(DuplicatePart(at))
      else if at !in index then Some(Unmanifested(at))
      else
        var e := CheckPart(lib, index[at], parts[0]);
        if e.Some? then e else FirstBadPart(lib, index, parts[1..], seen + {at})
  }

  function FirstDangling(entries: seq<InputEntry>, seen: set<Coords>): Option<BindError> {
    if entries == [] then None
    else if EntryAt(entries[0]) !in seen then Some(DanglingEntry(entries[0].id))
    else FirstDangling(entries[1..], seen)
  }

  function Bind(lib: Lib, entries: seq<InputEntry>, parts: seq<InputPart>): Option<BindError> {
    var (index, repeated) := IndexEntries(entries, map[]);
    if repeated.Some? then repeated
    else
      var bad := FirstBadPart(lib, index, parts, {});
      if bad.Some? then bad else FirstDangling(entries, KeysOf(PartAt, parts))
  }

  /** Distinct coordinates on both sides, the same coordinates on both sides, and every matched pair
      agrees. */
  ghost predicate Bindable(lib: Lib, entries: seq<InputEntry>, parts: seq<InputPart>) {
    && DistinctBy(EntryAt, entries) && DistinctBy(PartAt, parts)
    && KeysOf(EntryAt, entries) == KeysOf(PartAt, parts)
    && forall e, p :: e in entries && p in parts && EntryAt(e) == PartAt(p) ==> Agree(lib, e, p)
  }

  // ---- What each pass decides ----

  lemma {:induction false} IndexMeans(entries: seq<InputEntry>, index: map<Coords, InputEntry>)
    ensures IndexEntries(entries, index).1.None? <==>
      DistinctBy(EntryAt, entries) && KeysOf(EntryAt, entries) !! index.Keys
    ensures IndexEntries(entries, index).1.None? ==>
      && IndexEntries(entries, index).0.Keys == index.Keys + KeysOf(EntryAt, entries)
      && (forall c :: c in index ==> IndexEntries(entries, index).0[c] == index[c])
      && (forall e :: e in entries ==> IndexEntries(entries, index).0[EntryAt(e)] == e)
  {
    if entries != [] {
      DistinctByCons(EntryAt, entries);
      KeysOfCons(EntryAt, entries);
      IndexMeans(entries[1..], index[EntryAt(entries[0]) := entries[0]]);
      assert forall e :: e in entries <==> e == entries[0] || e in entries[1..];
    }
  }

  lemma {:induction false} PartsMean(lib: Lib, index: map<Coords, InputEntry>, parts: seq<InputPart>, seen: set<Coords>)
    ensures FirstBadPart(lib, index, parts, seen).None? <==>
      && DistinctBy(PartAt, parts) && KeysOf(PartAt, parts) !! seen && KeysOf(PartAt, parts) <= index.Keys
      && forall p :: p in parts && PartAt(p) in index ==> CheckPart(lib, index[PartAt(p)], p).None?
  {
    if parts != [] {
      DistinctByCons(PartAt, parts);
      KeysOfCons(PartAt, parts);
      PartsMean(lib, index, parts[1..], seen + {PartAt(parts[0])});
      assert forall p :: p in parts <==> p == parts[0] || p in parts[1..];
    }
  }

  lemma {:induction false} DanglingMeans(entries: seq<InputEntry>, seen: set<Coords>)
    ensures FirstDangling(entries, seen).None? <==> KeysOf(EntryAt, entries) <= seen
  {
    if entries != [] {
      KeysOfCons(EntryAt, entries);
      DanglingMeans(entries[1..], seen);
    }
  }

  /** Inputs bind exactly when they are bindable. */
  lemma BindsExactly(lib: Lib, entries: seq<InputEntry>, parts: seq<InputPart>)
    ensures Bind(lib, entries, parts).None? <==> Bindable(lib, entries, parts)
  {
    IndexMeans(entries, map[]);
    var index := IndexEntries(entries, map[]).0;
    PartsMean(lib, index, parts, {});
    DanglingMeans(entries, KeysOf(PartAt, parts));
    if DistinctBy(EntryAt, entries) && KeysOf(PartAt, parts) <= KeysOf(EntryAt, entries) {
      MatchedPairs(lib, entries, index, parts);
    }
    forall e, p ensures CheckPart(lib, e, p).None? <==> Agree(lib, e, p) { CheckedExactly(lib, e, p); }
  }

  lemma MatchedPairs(lib: Lib, entries: seq<InputEntry>, index: map<Coords, InputEntry>, parts: seq<InputPart>)
    requires index.Keys == KeysOf(EntryAt, entries) && forall e :: e in entries ==> index[EntryAt(e)] == e
    ensures (forall p :: p in parts && PartAt(p) in index ==> CheckPart(lib, index[PartAt(p)], p).None?) <==>
      (forall e, p :: e in entries && p in parts && EntryAt(e) == PartAt(p) ==> CheckPart(lib, e, p).None?)
  {
    forall p | p in parts && PartAt(p) in index
      ensures exists e :: e in entries && EntryAt(e) == PartAt(p) && index[PartAt(p)] == e
    {
      var i :| 0 <= i < |entries| && EntryAt(entries[i]) == PartAt(p);
      assert entries[i] in entries;
    }
  }

  /** Acceptance is a bijection: as many entries as Parts, and each Part is named by exactly one entry,
      even when entries share an id. */
  lemma BindingIsABijection(lib: Lib, entries: seq<InputEntry>, parts: seq<InputPart>, j: nat) returns (i: nat)
    requires Bind(lib, entries, parts).None? && j < |parts|
    ensures |entries| == |parts|
    ensures i < |entries| && EntryAt(entries[i]) == PartAt(parts[j]) && Agree(lib, entries[i], parts[j])
    ensures forall k :: 0 <= k < |entries| && EntryAt(entries[k]) == PartAt(parts[j]) ==> k == i
  {
    BindsExactly(lib, entries, parts);
    DistinctKeysCount(EntryAt, entries);
    DistinctKeysCount(PartAt, parts);
    assert PartAt(parts[j]) in KeysOf(PartAt, parts);
    i :| 0 <= i < |entries| && EntryAt(entries[i]) == PartAt(parts[j]);
    assert entries[i] in entries && parts[j] in parts;
  }

  lemma PermutedKeys<T(!new)>(at: T -> Coords, s: seq<T>, t: seq<T>)
    requires multiset(s) == multiset(t)
    ensures KeysOf(at, s) == KeysOf(at, t) && forall x :: x in s <==> x in t
  {
    assert forall x :: x in s <==> x in multiset(s);
    assert forall x :: x in t <==> x in multiset(t);
    assert forall c :: c in KeysOf(at, s) <==> exists x :: x in s && at(x) == c;
    assert forall c :: c in KeysOf(at, t) <==> exists x :: x in t && at(x) == c;
  }

  /** Neither the order of entries nor the order of Parts matters. */
  lemma OrderDoesNotMatter(lib: Lib, entries: seq<InputEntry>, parts: seq<InputPart>, entries': seq<InputEntry>,
                           parts': seq<InputPart>)
    requires multiset(entries) == multiset(entries') && multiset(parts) == multiset(parts')
    ensures Bind(lib, entries, parts).None? <==> Bind(lib, entries', parts').None?
  {
    BindsExactly(lib, entries, parts);
    BindsExactly(lib, entries', parts');
    PermutedDistinct(EntryAt, entries, entries');
    PermutedDistinct(PartAt, parts, parts');
    PermutedKeys(EntryAt, entries, entries');
    PermutedKeys(PartAt, parts, parts');
  }

  function DeclaredBytes(e: InputEntry): nat { e.byteLength }

  function SuppliedBytes(p: InputPart): nat { |CanonicalBytes(p.body)| }

  /** What the manifest declares is what was supplied, byte for byte in total. */
  lemma BytesAreConserved(lib: Lib, entries: seq<InputEntry>, parts: seq<InputPart>)
    requires Bind(lib, entries, parts).None?
    ensures Sum(DeclaredBytes, entries) == Sum(SuppliedBytes, parts)
  {
    BindsExactly(lib, entries, parts);
    MatchedSums(EntryAt, PartAt, entries, parts, DeclaredBytes, SuppliedBytes);
  }

  // ---- The source's loops ----

  /** Two hash maps filled across three loops. */
  method BindInputs(lib: Lib, entries: seq<InputEntry>, parts: seq<InputPart>) returns (r: Option<BindError>)
    ensures r == Bind(lib, entries, parts)
  {
    var byCoords: map<Coords, InputEntry> := map[];
    for i := 0 to |entries|
      invariant IndexEntries(entries[i..], byCoords) == IndexEntries(entries, map[])
    {
      var at := EntryAt(entries[i]);
      if at in byCoords {
        return Some(MultiplyReferenced(byCoords[at].id, entries[i].id));
      }
      byCoords := byCoords[at := entries[i]];
    }
    var seen: set<Coords> := {};
    for i := 0 to |parts|
      invariant FirstBadPart(lib, byCoords, parts[i..], seen) == FirstBadPart(lib, byCoords, parts, {})
      invariant seen == KeysOf(PartAt, parts[..i])
    {
      var at := PartAt(parts[i]);
      if at in seen {
        return Some(DuplicatePart(at));
      }
      if at !in byCoords {
        return Some(Unmanifested(at));
      }
      var e := CheckPart(lib, byCoords[at], parts[i]);
      if e.Some? {
        return e;
      }
      seen := seen + {at};
      KeysOfSnoc(PartAt, parts, i);
    }
    assert parts[..|parts|] == parts;
    for i := 0 to |entries|
      invariant FirstDangling(entries[i..], seen) == FirstDangling(entries, seen)
    {
      if EntryAt(entries[i]) !in seen {
        return Some(DanglingEntry(entries[i].id));
      }
    }
    r := None;
  }
}
