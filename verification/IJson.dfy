/** Strict I-JSON parsing: one node counter and one violation slot shared by a recursive visitor,
    measured against the shape of the document alone. */
module IJson {
  import Decimal
  import opened Json
  import opened Lists
  import opened Options

  const MAX_BYTES: nat := 8 * 1024 * 1024
  const MAX_DEPTH: nat := 64
  const MAX_NODES: nat := 1_000_000
  const MAX_SAFE_INTEGER: int := 0x1F_FFFF_FFFF_FFFF

  /** A document as the syntax layer delivers it, up to the place where the text stops being JSON:
      integer literals, other numbers as doubles, and objects as lists of members, repeats included.
      `Torn` stands where a value should be and is not one; a container that is not `closed` ends in
      something else than another element or its bracket. */
  datatype Doc =
    | NullDoc
    | BoolDoc(b: bool)
    | Whole(n: int)
    | Float(v: real)
    | StrDoc(s: string)
    | ArrDoc(items: seq<Doc>, closed: bool)
    | ObjDoc(members: seq<Member>, closed: bool)
    | Torn

  datatype Member = Member(key: string, value: Doc)

  /** A text: its document, and whether that is all there is. */
  datatype Text = Text(doc: Doc, whole: bool)

  datatype Error = TooLarge(actual: nat, limit: nat) | TooDeep(limit: nat)
    | TooManyNodes(limit: nat) | DuplicateKey(key: string)
    | UnsafeInteger | Syntax

  /** How the number layer rounds integers outside 64 bits and spells numbers. */
  datatype Numbers = Numbers(round: int -> real, spell: real -> string)

  predicate Fits64(n: int) { -0x8000_0000_0000_0000 <= n < 0x1_0000_0000_0000_0000 }

  predicate SafeInt(n: int) { -MAX_SAFE_INTEGER <= n <= MAX_SAFE_INTEGER }

  /** Not an integer beyond the safe range. */
  predicate SafeReal(v: real) {
    v.Floor as real != v || -MAX_SAFE_INTEGER as real <= v <= MAX_SAFE_INTEGER as real
  }

  function SpellInt(n: int): string {
    if n < 0 then "-" + Decimal.Print(-n) else Decimal.Print(n)
  }

  // ---- The visitor, as a function of the counter ----

  datatype Visited = Done(value: Json, nodes: nat) | Fail(error: Error)

  datatype Items = Listed(values: seq<Json>, count: nat) | Broken(cause: Error)

  datatype Table = Filled(entries: map<string, Json>, total: nat) | Spoiled(reason: Error)

  function VisitNumber(num: Numbers, d: Doc, nodes: nat): Visited
    requires d.Whole? || d.Float?
  {
    if d.Whole? && Fits64(d.n) then (if SafeInt(d.n) then Done(Num(SpellInt(d.n)), nodes) else Fail(UnsafeInteger))
    else
      var v := if d.Whole? then num.round(d.n) else d.v;
      if SafeReal(v) then Done(Num(num.spell(v)), nodes) else Fail(UnsafeInteger)
  }

  function Visit(num: Numbers, maxDepth: nat, d: Doc, depth: nat, nodes: nat): Visited
    decreases d, 0
  {
    if nodes + 1 > MAX_NODES then Fail(TooManyNodes(MAX_NODES))
    else
      match d
      case NullDoc => Done(Null, nodes + 1)
      case BoolDoc(b) => Done(Bool(b), nodes + 1)
      case StrDoc(s) => Done(Str(s), nodes + 1)
      case Whole(_) => VisitNumber(num, d, nodes + 1)
      case Float(_) => VisitNumber(num, d, nodes + 1)
      case Torn => Fail(Syntax)
      case ArrDoc(items, closed) =>
        if depth >= maxDepth then Fail(TooDeep(maxDepth))
        else
          (match VisitItems(num, maxDepth, items, depth + 1, nodes + 1)
           case Broken(e) => Fail(e)
           case Listed(values, n) => if closed then Done(Arr(values), n) else Fail(Syntax))
      case ObjDoc(members, closed) =>
        if depth >= maxDepth then Fail(TooDeep(maxDepth))
        else
          (match VisitMembers(num, maxDepth, members, depth + 1, nodes + 1)
           case Spoiled(e) => Fail(e)
           case Filled(entries, n) => if closed then Done(Obj(entries), n) else Fail(Syntax))
  }

  /** All items, from the first on. */
  function VisitItems(num: Numbers, maxDepth: nat, items: seq<Doc>, depth: nat, nodes: nat): Items
    decreases items, 0
  {
    if items == [] then Listed([], nodes)
    else
      var last := |items| - 1;
      match VisitItems(num, maxDepth, items[..last], depth, nodes)
      case Broken(e) => Broken(e)
      case Listed(values, n) =>
        (match Visit(num, maxDepth, items[last], depth, n)
         case Fail(e) => Broken(e)
         case Done(v, m) => Listed(values + [v], m))
  }

  /** All members, from the first on; a repeat is noticed once its value has been read. */
  function VisitMembers(num: Numbers, maxDepth: nat, members: seq<Member>, depth: nat, nodes: nat): Table
    decreases members, 0
  {
    if members == [] then Filled(map[], nodes)
    else
      var last := |members| - 1;
      match VisitMembers(num, maxDepth, members[..last], depth, nodes)
      case Spoiled(e) => Spoiled(e)
      case Filled(entries, n) => AddEntry(entries, members[last].key,
        Visit(num, maxDepth, members[last].value, depth, n))
  }

  function AddEntry(entries: map<string, Json>, key: string, value: Visited): Table {
    match value
    case Fail(e) => Spoiled(e)
    case Done(v, n) => if key in entries then Spoiled(DuplicateKey(key)) else Filled(entries[key := v], n)
  }

  // ---- The shape of a document ----

  function Count(d: Doc): nat
    decreases d, 0
  {
    match d
    case ArrDoc(items, _) => 1 + CountItems(items)
    case ObjDoc(members, _) => 1 + CountMembers(members)
    case _ => 1
  }

  function CountItems(items: seq<Doc>): nat
    decreases items, 0
  {
    if items == [] then 0 else CountItems(items[..|items| - 1]) + Count(items[|items| - 1])
  }

  function CountMembers(members: seq<Member>): nat
    decreases members, 0
  {
    if members == [] then 0 else CountMembers(members[..|members| - 1]) + Count(members[|members| - 1].value)
  }

  function KeyOf(m: Member): string { m.key }

  /** No path nests more than `room` containers. */
  predicate Shallow(d: Doc, room: nat)
    decreases d, 0
  {
    match d
    case ArrDoc(items, _) => room > 0 && forall x :: x in items ==> Shallow(x, room - 1)
    case ObjDoc(members, _) => room > 0 && forall m :: m in members ==> Shallow(m.value, room - 1)
    case _ => true
  }

  /** No object repeats a key (section 2.3 of RFC 7493). */
  predicate NoRepeats(d: Doc)
    decreases d, 0
  {
    match d
    case ArrDoc(items, _) => forall x :: x in items ==> NoRepeats(x)
    case ObjDoc(members, _) =>
      DistinctBy(KeyOf, members) && forall m :: m in members ==> NoRepeats(m.value)
    case _ => true
  }

  /** Every integer is in the safe range (section 2.2 of RFC 7493). */
  predicate SafeNumbers(d: Doc)
    decreases d, 0
  {
    match d
    case Whole(n) => -9007199254740991 <= n <= 9007199254740991
    case Float(v) => v.Floor as real == v ==> -9007199254740991.0 <= v <= 9007199254740991.0
    case ArrDoc(items, _) => forall x :: x in items ==> SafeNumbers(x)
    case ObjDoc(members, _) => forall m :: m in members ==> SafeNumbers(m.value)
    case _ => true
  }

  /** The text is JSON to the end of the document. */
  predicate Intact(d: Doc)
    decreases d, 0
  {
    match d
    case Torn => false
    case ArrDoc(items, closed) => closed && forall x :: x in items ==> Intact(x)
    case ObjDoc(members, closed) => closed && forall m :: m in members ==> Intact(m.value)
    case _ => true
  }

  /** The value a document denotes. */
  function ToValue(num: Numbers, d: Doc): Json
    decreases d, 0
  {
    match d
    case NullDoc => Null
    case BoolDoc(b) => Bool(b)
    case Whole(n) => Num(if n < 0 then "-" + Decimal.Print(-n) else Decimal.Print(n))
    case Float(v) => Num(num.spell(v))
    case StrDoc(s) => Str(s)
    case ArrDoc(items, _) => Arr(ToValues(num, items))
    case ObjDoc(members, _) => Obj(ToEntries(num, members))
    case Torn => Null
  }

  function ToValues(num: Numbers, items: seq<Doc>): seq<Json>
    decreases items, 0
  {
    if items == [] then [] else ToValues(num, items[..|items| - 1]) + [ToValue(num, items[|items| - 1])]
  }

  function ToEntries(num: Numbers, members: seq<Member>): map<string, Json>
    decreases members, 0
  {
    if members == [] then map[]
    else ToEntries(num, members[..|members| - 1])[members[|members| - 1].key :=
      ToValue(num, members[|members| - 1].value)]
  }

  // ---- Acceptance is exact ----

  /** An integer that does not fit 64 bits stays an unsafe integer when rounded. */
  ghost predicate RoundsFar(num: Numbers) {
    forall n :: !Fits64(n) ==> !SafeReal(num.round(n))
  }

  /** The conditions on a document that do not involve the counter. */
  ghost predicate Sound(maxDepth: nat, d: Doc, depth: nat)
    requires depth <= maxDepth
  {
    Shallow(d, maxDepth - depth) && NoRepeats(d) && SafeNumbers(d) && Intact(d)
  }

  /** What one visit from `nodes` may and must accept. */
  ghost predicate Acceptable(maxDepth: nat, d: Doc, depth: nat, nodes: nat)
    requires depth <= maxDepth
  {
    Sound(maxDepth, d, depth) && nodes + Count(d) <= MAX_NODES
  }

  lemma NumberIsExact(num: Numbers, d: Doc, nodes: nat)
    requires RoundsFar(num) && (d.Whole? || d.Float?)
    ensures VisitNumber(num, d, nodes).Done? <==> SafeNumbers(d)
    ensures SafeNumbers(d) ==> VisitNumber(num, d, nodes) == Done(ToValue(num, d), nodes)
  {
  }

  lemma {:induction false} VisitIsExact(num: Numbers, maxDepth: nat, d: Doc, depth: nat, nodes: nat)
    requires RoundsFar(num) && depth <= maxDepth
    ensures Visit(num, maxDepth, d, depth, nodes) == Done(ToValue(num, d), nodes + Count(d)) ||
      Visit(num, maxDepth, d, depth, nodes).Fail?
    ensures Visit(num, maxDepth, d, depth, nodes).Done? <==> Acceptable(maxDepth, d, depth, nodes)
    decreases d, 0
  {
    match d
    case ArrDoc(items, _) =>
      if depth < maxDepth { ItemsAreExact(num, maxDepth, items, depth + 1, nodes + 1); }
    case ObjDoc(members, _) =>
      if depth < maxDepth { MembersAreExact(num, maxDepth, members, depth + 1, nodes + 1); }
    case Whole(_) => NumberIsExact(num, d, nodes + 1);
    case Float(_) => NumberIsExact(num, d, nodes + 1);
    case _ =>
  }

  ghost predicate ItemsAcceptable(maxDepth: nat, items: seq<Doc>, depth: nat, nodes: nat)
    requires depth <= maxDepth
  {
    && nodes + CountItems(items) <= MAX_NODES
    && forall x :: x in items ==> Sound(maxDepth, x, depth)
  }

  lemma ItemsAcceptableSnoc(maxDepth: nat, items: seq<Doc>, depth: nat, nodes: nat)
    requires depth <= maxDepth && |items| > 0
    ensures var init, last := items[..|items| - 1], items[|items| - 1];
      ItemsAcceptable(maxDepth, items, depth, nodes) <==>
      ItemsAcceptable(maxDepth, init, depth, nodes) && Acceptable(maxDepth, last, depth, nodes + CountItems(init))
  {
    var init, last := items[..|items| - 1], items[|items| - 1];
    assert last in items && forall x :: x in items <==> x in init || x == last;
  }

  lemma {:induction false} ItemsAreExact(num: Numbers, maxDepth: nat, items: seq<Doc>, depth: nat, nodes: nat)
    requires RoundsFar(num) && depth <= maxDepth
    ensures VisitItems(num, maxDepth, items, depth, nodes) == Listed(ToValues(num, items), nodes + CountItems(items))
      || VisitItems(num, maxDepth, items, depth, nodes).Broken?
    ensures nodes <= MAX_NODES ==> (VisitItems(num, maxDepth, items, depth, nodes).Listed? <==>
      ItemsAcceptable(maxDepth, items, depth, nodes))
    decreases items, 0
  {
    if items != [] {
      var last := |items| - 1;
      ItemsAcceptableSnoc(maxDepth, items, depth, nodes);
      ItemsAreExact(num, maxDepth, items[..last], depth, nodes);
      if VisitItems(num, maxDepth, items[..last], depth, nodes).Listed? {
        VisitIsExact(num, maxDepth, items[last], depth, nodes + CountItems(items[..last]));
      }
    }
  }

  ghost predicate MembersAcceptable(maxDepth: nat, members: seq<Member>, depth: nat, nodes: nat)
    requires depth <= maxDepth
  {
    && nodes + CountMembers(members) <= MAX_NODES
    && DistinctBy(KeyOf, members)
    && forall m :: m in members ==> Sound(maxDepth, m.value, depth)
  }

  lemma MembersAcceptableSnoc(maxDepth: nat, members: seq<Member>, depth: nat, nodes: nat)
    requires depth <= maxDepth && |members| > 0
    ensures var init, last := members[..|members| - 1], members[|members| - 1];
      MembersAcceptable(maxDepth, members, depth, nodes) <==>
      && MembersAcceptable(maxDepth, init, depth, nodes) && last.key !in KeysOf(KeyOf, init)
      && Acceptable(maxDepth, last.value, depth, nodes + CountMembers(init))
  {
    var init, last := members[..|members| - 1], members[|members| - 1];
    DistinctBySnoc(KeyOf, members);
    assert last in members && forall m :: m in members <==> m in init || m == last;
  }

  lemma {:induction false} EntryKeys(num: Numbers, members: seq<Member>)
    ensures ToEntries(num, members).Keys == KeysOf(KeyOf, members)
  {
    if members != [] {
      EntryKeys(num, members[..|members| - 1]);
      KeysOfSnoc(KeyOf, members, |members| - 1);
      assert members[..|members|] == members;
    }
  }

  /** The last member's value, then its key. */
  lemma LastMemberIsExact(num: Numbers, maxDepth: nat, members: seq<Member>, depth: nat, nodes: nat, visited: Visited)
    requires depth <= maxDepth && |members| > 0
    requires var init, last := members[..|members| - 1], members[|members| - 1];
      var n := nodes + CountMembers(init);
      && VisitMembers(num, maxDepth, init, depth, nodes) == Filled(ToEntries(num, init), n)
      && visited == Visit(num, maxDepth, last.value, depth, n)
      && (visited == Done(ToValue(num, last.value), n + Count(last.value)) || visited.Fail?)
    ensures var init, last := members[..|members| - 1], members[|members| - 1];
      var r := VisitMembers(num, maxDepth, members, depth, nodes);
      && (r == Filled(ToEntries(num, members), nodes + CountMembers(members)) || r.Spoiled?)
      && (r.Filled? <==> visited.Done? && last.key !in KeysOf(KeyOf, init))
  {
    var last := |members| - 1;
    EntryKeys(num, members[..last]);
    assert VisitMembers(num, maxDepth, members, depth, nodes) ==
      AddEntry(ToEntries(num, members[..last]), members[last].key, visited);
  }

  lemma {:induction false} MembersAreExact(num: Numbers, maxDepth: nat, members: seq<Member>, depth: nat, nodes: nat)
    requires RoundsFar(num) && depth <= maxDepth
    ensures VisitMembers(num, maxDepth, members, depth, nodes) ==
      Filled(ToEntries(num, members), nodes + CountMembers(members))
      || VisitMembers(num, maxDepth, members, depth, nodes).Spoiled?
    ensures nodes <= MAX_NODES ==> (VisitMembers(num, maxDepth, members, depth, nodes).Filled? <==>
      MembersAcceptable(maxDepth, members, depth, nodes))
    decreases members, 0
  {
    if members != [] {
      var last := |members| - 1;
      MembersAcceptableSnoc(maxDepth, members, depth, nodes);
      MembersAreExact(num, maxDepth, members[..last], depth, nodes);
      if VisitMembers(num, maxDepth, members[..last], depth, nodes).Filled? {
        var n := nodes + CountMembers(members[..last]);
        VisitIsExact(num, maxDepth, members[last].value, depth, n);
        LastMemberIsExact(num, maxDepth, members, depth, nodes, Visit(num, maxDepth, members[last].value, depth, n));
      }
    }
  }

  // ---- The visitor ----

  /** What the violation slot holds after a failure: a syntax error leaves no cause behind. */
  function Recorded(before: Option<Error>, e: Error): Option<Error> { if e == Syntax then before else Some(e) }

  /** The state the visitors share. */
  class ParseState {
    const num: Numbers
    const maxDepth: nat
    var nodes: nat
    var violation: Option<Error>

    constructor (num: Numbers, maxDepth: nat)
      ensures this.num == num && this.maxDepth == maxDepth && nodes == 0 && violation == None
    {
      this.num, this.maxDepth, nodes, violation := num, maxDepth, 0, None;
    }

    /** Records the cause and gives up. */
    method Give<T>(error: Error) returns (r: Option<T>)
      modifies this`violation
      ensures r == None && violation == Some(error)
    {
      violation := Some(error);
      r := None;
    }

    method VisitNumberDoc(d: Doc) returns (r: Option<Json>)
      requires d.Whole? || d.Float?
      modifies this`violation
      ensures match VisitNumber(num, d, nodes)
        case Done(v, n) => r == Some(v) && violation == old(violation)
        case Fail(e) => r == None && violation == Some(e)
    {
      match VisitNumber(num, d, nodes)
      case Done(v, _) => r := Some(v);
      case Fail(e) => r := Give(e);
    }

    /** Counts the node, then visits it. */
    method Deserialize(d: Doc, depth: nat) returns (r: Option<Json>)
      modifies this
      ensures match Visit(num, maxDepth, d, depth, old(nodes))
        case Done(v, n) => r == Some(v) && nodes == n && violation == old(violation)
        case Fail(e) => r == None && violation == Recorded(old(violation), e)
      decreases d, 1
    {
      if nodes + 1 > MAX_NODES {
        r := Give(TooManyNodes(MAX_NODES));
        return;
      }
      nodes := nodes + 1;
      match d
      case NullDoc => r := Some(Null);
      case BoolDoc(b) => r := Some(Bool(b));
      case StrDoc(s) => r := Some(Str(s));
      case Whole(_) => r := VisitNumberDoc(d);
      case Float(_) => r := VisitNumberDoc(d);
      case ArrDoc(items, closed) => r := VisitSeq(items, closed, depth);
      case ObjDoc(members, closed) => r := VisitMap(members, closed, depth);
      case Torn => r := None;
    }

    method VisitSeq(docs: seq<Doc>, closed: bool, depth: nat) returns (r: Option<Json>)
      modifies this
      ensures depth >= maxDepth ==> r == None && violation == Some(TooDeep(maxDepth))
      ensures depth < maxDepth ==>
        match VisitItems(num, maxDepth, docs, depth + 1, old(nodes))
        case Listed(values, n) =>
          (r == if closed then Some(Arr(values)) else None) && nodes == n && violation == old(violation)
        case Broken(e) => r == None && violation == Recorded(old(violation), e)
      decreases docs, 0
    {
      if depth >= maxDepth {
        r := Give(TooDeep(maxDepth));
        return;
      }
      var items: seq<Json> := [];
      for i := 0 to |docs|
        invariant VisitItems(num, maxDepth, docs[..i], depth + 1, old(nodes)) == Listed(items, nodes)
        invariant violation == old(violation)
      {
        assert docs[..i + 1][..i] == docs[..i];
        var item := Deserialize(docs[i], depth + 1);
        if item.None? {
          BrokenStays(num, maxDepth, docs, depth + 1, old(nodes), i + 1);
          return None;
        }
        items := items + [item.value];
      }
      assert docs[..|docs|] == docs;
      r := if closed then Some(Arr(items)) else None;
    }

    method VisitMap(docs: seq<Member>, closed: bool, depth: nat) returns (r: Option<Json>)
      modifies this
      ensures depth >= maxDepth ==> r == None && violation == Some(TooDeep(maxDepth))
      ensures depth < maxDepth ==>
        match VisitMembers(num, maxDepth, docs, depth + 1, old(nodes))
        case Filled(entries, n) =>
          (r == if closed then Some(Obj(entries)) else None) && nodes == n && violation == old(violation)
        case Spoiled(e) => r == None && violation == Recorded(old(violation), e)
      decreases docs, 0
    {
      if depth >= maxDepth {
        r := Give(TooDeep(maxDepth));
        return;
      }
      var entries: map<string, Json> := map[];
      for i := 0 to |docs|
        invariant VisitMembers(num, maxDepth, docs[..i], depth + 1, old(nodes)) == Filled(entries, nodes)
        invariant violation == old(violation)
      {
        assert docs[..i + 1][..i] == docs[..i];
        var value := Deserialize(docs[i].value, depth + 1);
        if value.None? {
          SpoiledStays(num, maxDepth, docs, depth + 1, old(nodes), i + 1);
          return None;
        }
        if docs[i].key in entries {
          SpoiledStays(num, maxDepth, docs, depth + 1, old(nodes), i + 1);
          r := Give(DuplicateKey(docs[i].key));
          return;
        }
        entries := entries[docs[i].key := value.value];
      }
      assert docs[..|docs|] == docs;
      r := if closed then Some(Obj(entries)) else None;
    }
  }

  /** The first failure decides. */
  lemma {:induction false} BrokenStays(num: Numbers, maxDepth: nat, items: seq<Doc>, depth: nat, nodes: nat, k: nat)
    requires k <= |items| && VisitItems(num, maxDepth, items[..k], depth, nodes).Broken?
    ensures VisitItems(num, maxDepth, items, depth, nodes) == VisitItems(num, maxDepth, items[..k], depth, nodes)
    decreases |items|
  {
    if k == |items| {
      assert items[..k] == items;
    } else {
      assert items[..|items| - 1][..k] == items[..k];
      BrokenStays(num, maxDepth, items[..|items| - 1], depth, nodes, k);
    }
  }

  lemma {:induction false} SpoiledStays(num: Numbers, maxDepth: nat, members: seq<Member>, depth: nat, nodes: nat,
                                        k: nat)
    requires k <= |members| && VisitMembers(num, maxDepth, members[..k], depth, nodes).Spoiled?
    ensures VisitMembers(num, maxDepth, members, depth, nodes) ==
      VisitMembers(num, maxDepth, members[..k], depth, nodes)
    decreases |members|
  {
    if k == |members| {
      assert members[..k] == members;
    } else {
      assert members[..|members| - 1][..k] == members[..k];
      SpoiledStays(num, maxDepth, members[..|members| - 1], depth, nodes, k);
    }
  }

  // ---- Parsing ----

  datatype ParseResult = Ok(value: Json) | Err(error: Error)

  /** The text spells a document within the limits, which callers can only lower. */
  ghost predicate Accepts(syntax: string -> Text, bytes: string, maxBytes: nat, maxDepth: nat) {
    && |bytes| <= Min(maxBytes, 8388608) && syntax(bytes).whole
    && var d := syntax(bytes).doc;
      && Intact(d) && Shallow(d, Min(maxDepth, 64)) && Count(d) <= 1000000 && NoRepeats(d)
      && SafeNumbers(d)
  }

  /** `syntax` is the JSON grammar: what a text spells, as far as it spells anything. The error is the
      size, the first violation met, or the syntax error that comes before any. */
  method ParseWithLimits(num: Numbers, syntax: string -> Text, bytes: string, maxBytes: nat, maxDepth: nat)
      returns (r: ParseResult)
    requires RoundsFar(num)
    ensures r.Ok? <==> Accepts(syntax, bytes, maxBytes, maxDepth)
    ensures r.Ok? ==> r.value == ToValue(num, syntax(bytes).doc)
    ensures |bytes| > Min(maxBytes, MAX_BYTES) ==> r == Err(TooLarge(|bytes|, Min(maxBytes, MAX_BYTES)))
    ensures |bytes| <= Min(maxBytes, MAX_BYTES) && r.Err? ==>
      var visited := Visit(num, Min(maxDepth, MAX_DEPTH), syntax(bytes).doc, 0, 0);
      r == Err(if visited.Fail? then visited.error else Syntax)
  {
    var byteLimit, depthLimit := Min(maxBytes, MAX_BYTES), Min(maxDepth, MAX_DEPTH);
    if |bytes| > byteLimit {
      return Err(TooLarge(|bytes|, byteLimit));
    }
    var text := syntax(bytes);
    var state := new ParseState(num, depthLimit);
    var value := state.Deserialize(text.doc, 0);
    VisitIsExact(num, depthLimit, text.doc, 0, 0);
    if value.Some? && text.whole {
      return Ok(value.value);
    }
    r := Err(if state.violation.Some? then state.violation.value else Syntax);
  }
}
