/** The identity token: `akson1`, a version byte and a root key in five-bit symbols, and six
    checksum symbols. Strings are bytes, one `char` per UTF-8 byte. */
module Token {
  import Bech32m
  import opened Ascii
  import opened Options
  import opened Regroup
  import Substitutions

  const TOKEN_VERSION: Byte := 1
  const TOKEN_HRP := "akson"
  const MAX_TOKEN_CHARS := 90
  const CHARSET := "qpzry9x8gf2tvdw0s3jn54khce6mua7l"

  datatype IdentityToken = IdentityToken(version: Byte, rootKey: seq<Byte>)

  datatype TokenError = TooLong | MixedCase | BadHrp | BadChar(position: nat) | BadChecksum
    | UnknownVersion(version: Byte) | BadLength | WeakKey

  datatype Result = Ok(token: IdentityToken) | Err(error: TokenError)

  /** The token's human-readable part, as the checksum reads it. */
  lemma {:induction false} TokenExpansion()
    ensures Bech32m.HrpExpand(TOKEN_HRP) == [3, 3, 3, 3, 3, 0, 1, 11, 19, 15, 14]
  {
  }

  // ---- Characters ----

  function Char(s: Symbol): char { CHARSET[s] }

  function Text(data: seq<Symbol>): string {
    seq(|data|, i requires 0 <= i < |data| => Char(data[i]))
  }

  /** The first position of `c` in the alphabet, from `start` on. */
  function Position(c: char, start: nat): (r: Option<Symbol>)
    requires start <= 32
    ensures r.Some? ==> Char(r.value) == c
    ensures r.None? ==> forall s: Symbol :: start <= s ==> Char(s) != c
    decreases 32 - start
  {
    if start == 32 then None else if CHARSET[start] == c then Some(start) else Position(c, start + 1)
  }

  function Rank(c: char): nat {
    match c
    case 'q' => 0 case 'p' => 1 case 'z' => 2 case 'r' => 3 case 'y' => 4 case '9' => 5 case 'x' => 6
    case '8' => 7 case 'g' => 8 case 'f' => 9 case '2' => 10 case 't' => 11 case 'v' => 12 case 'd' => 13
    case 'w' => 14 case '0' => 15 case 's' => 16 case '3' => 17 case 'j' => 18 case 'n' => 19 case '5' => 20
    case '4' => 21 case 'k' => 22 case 'h' => 23 case 'c' => 24 case 'e' => 25 case '6' => 26 case 'm' => 27
    case 'u' => 28 case 'a' => 29 case '7' => 30 case _ => 31
  }

  lemma RankOfChar(s: Symbol)
    ensures Rank(Char(s)) == s
  {
  }

  /** The alphabet repeats no character. */
  lemma TextIsInjective(d: seq<Symbol>, e: seq<Symbol>)
    requires Text(d) == Text(e)
    ensures d == e
  {
    assert |d| == |Text(d)| == |e|;
    forall i | 0 <= i < |d| ensures d[i] == e[i] {
      assert Text(d)[i] == Text(e)[i];
      RankOfChar(d[i]);
      RankOfChar(e[i]);
    }
  }

  lemma CharIsLowerAscii(s: Symbol)
    ensures Char(s) < 128 as char && Char(s) != '1' && !Upper(Char(s))
  {
  }

  predicate SingleCase(s: string) {
    (forall c :: c in s ==> !Upper(c)) || (forall c :: c in s ==> !LowerCase(c))
  }

  // ---- The token of a payload ----

  function Word(s: Symbol): bv5 { s as bv5 }

  function Words(data: seq<Symbol>): seq<bv5> {
    seq(|data|, i requires 0 <= i < |data| => Word(data[i]))
  }

  function Group(w: bv5): Symbol { w as nat }

  function Groups(words: seq<bv5>): seq<Symbol> {
    seq(|words|, i requires 0 <= i < |words| => Group(words[i]))
  }

  lemma WordOfGroup(w: bv5)
    ensures Word(Group(w)) == w
  {
  }

  lemma GroupOfWord(s: Symbol)
    ensures Group(Word(s)) == s
  {
  }

  lemma GroupsInvertWords(data: seq<Symbol>, words: seq<bv5>)
    ensures Words(data) == words <==> data == Groups(words)
  {
    forall i | 0 <= i < |words| ensures Word(Group(words[i])) == words[i] {
      WordOfGroup(words[i]);
    }
    forall i | 0 <= i < |data| ensures Group(Word(data[i])) == data[i] {
      GroupOfWord(data[i]);
    }
    if Words(data) == words {
      assert |data| == |words|;
      forall i | 0 <= i < |data| ensures data[i] == Groups(words)[i] {
        assert words[i] == Word(data[i]);
      }
    }
  }

  /** The checksum symbols of `data` under the token's human-readable part. */
  function Tail(data: seq<Symbol>): (tail: seq<Symbol>)
    ensures |tail| == 6
  {
    Groups(Bech32m.Checksum(TOKEN_HRP, Words(data)))
  }

  function Sealed(data: seq<Symbol>): string {
    TOKEN_HRP + "1" + Text(data + Tail(data))
  }

  /** `s` is the lowercase token of `payload`. */
  ghost predicate IsToken(s: string, payload: seq<Byte>) {
    exists data :: Spells(data, payload) && s == Sealed(data)
  }

  lemma TokenLength(s: string, payload: seq<Byte>)
    requires |payload| == 33
    ensures IsToken(s, payload) ==> |s| == 65
  {
  }

  /** A payload has at most one token and a token at most one payload. */
  lemma TokenIsOneToOne(s: string, t: string, p: seq<Byte>, q: seq<Byte>)
    requires IsToken(s, p) && IsToken(t, q)
    ensures s == t <==> p == q
  {
    var d :| Spells(d, p) && s == Sealed(d);
    var e :| Spells(e, q) && t == Sealed(e);
    SpellsIsOneToOne(d, e, p, q);
    if s == t {
      assert Text(d + Tail(d)) == s[6..] == t[6..] == Text(e + Tail(e));
      TextIsInjective(d + Tail(d), e + Tail(e));
      assert d == (d + Tail(d))[..|d|];
    }
  }

  method EncodeToken(rootKey: seq<Byte>) returns (out: string)
    requires |rootKey| == 32
    ensures IsToken(out, [TOKEN_VERSION] + rootKey) && |out| == 65
  {
    var data := ToFiveBit([TOKEN_VERSION] + rootKey);
    var digits := Bech32m.ComputeChecksum(TOKEN_HRP, Words(data));
    out := PushChars(TOKEN_HRP + "1", data + Groups(digits));
    assert out == Sealed(data);
  }

  method PushChars(start: string, symbols: seq<Symbol>) returns (out: string)
    ensures out == start + Text(symbols)
  {
    out := start;
    for i := 0 to |symbols|
      invariant out == start + Text(symbols[..i])
    {
      out := out + [Char(symbols[i])];
    }
    assert symbols[..|symbols|] == symbols;
  }

  // ---- Decoding ----

  /** The last position of the separator. */
  function LastOne(s: string): (r: Option<nat>)
    ensures r.Some? ==> r.value < |s| && s[r.value] == '1' && '1' !in s[r.value + 1..]
    ensures r.None? ==> '1' !in s
  {
    if s == [] then None
    else if s[|s| - 1] == '1' then Some(|s| - 1)
    else LastOne(s[..|s| - 1])
  }

  lemma TextHasNoOne(data: seq<Symbol>)
    ensures '1' !in Text(data)
  {
    forall i | 0 <= i < |data| ensures Text(data)[i] != '1' {
      CharIsLowerAscii(data[i]);
    }
  }

  lemma NoOneAfter(s: string, i: nat)
    requires i < |s| && '1' !in s[i + 1..]
    ensures forall k :: i < k < |s| ==> s[k] != '1'
  {
    forall k | i < k < |s| ensures s[k] != '1' {
      assert s[k] == s[i + 1..][k - i - 1];
    }
  }

  lemma WordsOfTail(d: seq<Symbol>, tail: seq<Symbol>)
    ensures Words(d + tail) == Words(d) + Words(tail)
    ensures Words(tail) == Bech32m.Checksum(TOKEN_HRP, Words(d)) <==> tail == Tail(d)
  {
    GroupsInvertWords(tail, Bech32m.Checksum(TOKEN_HRP, Words(d)));
  }

  lemma SealedVerifies(d: seq<Symbol>)
    ensures Bech32m.VerifyChecksum(TOKEN_HRP, Words(d + Tail(d)))
  {
    WordsOfTail(d, Tail(d));
    Bech32m.ChecksumVerifies(TOKEN_HRP, Words(d));
  }

  lemma VerifiedIsSealed(data: seq<Symbol>)
    requires |data| >= 6 && Bech32m.VerifyChecksum(TOKEN_HRP, Words(data))
    ensures TOKEN_HRP + "1" + Text(data) == Sealed(data[..|data| - 6])
  {
    var d, tail := data[..|data| - 6], data[|data| - 6..];
    assert data == d + tail;
    WordsOfTail(d, tail);
    Bech32m.ChecksumIsUnique(TOKEN_HRP, Words(d), Words(tail));
  }

  /** What the decoder says about the payload of a well-formed token. */
  function Verdict(payload: seq<Byte>, usable: seq<Byte> -> bool): Result {
    if payload == [] then Err(BadLength)
    else if payload[0] != TOKEN_VERSION then Err(UnknownVersion(payload[0]))
    else if |payload| != 33 then Err(BadLength)
    else if !usable(payload[1..]) then Err(WeakKey)
    else Ok(IdentityToken(payload[0], payload[1..]))
  }

  lemma OkNamesPayload(payload: seq<Byte>, usable: seq<Byte> -> bool)
    ensures var r := Verdict(payload, usable);
      r.Ok? ==> payload == [r.token.version] + r.token.rootKey
  {
  }

  lemma VerdictOnKey(key: seq<Byte>, usable: seq<Byte> -> bool)
    requires |key| == 32
    ensures Verdict([TOKEN_VERSION] + key, usable) ==
      if usable(key) then Ok(IdentityToken(TOKEN_VERSION, key)) else Err(WeakKey)
  {
    assert ([TOKEN_VERSION] + key)[1..] == key;
  }

  /** Each verdict has one cause, read off the payload. */
  lemma VerdictExactly(payload: seq<Byte>, usable: seq<Byte> -> bool)
    ensures var r := Verdict(payload, usable);
      && (r == Err(BadLength) <==> payload == [] || (payload[0] == 1 && |payload| != 33))
      && (forall v :: r == Err(UnknownVersion(v)) <==> payload != [] && payload[0] == v && v != 1)
      && (r == Err(WeakKey) <==> |payload| == 33 && payload[0] == 1 && !usable(payload[1..]))
      && (forall key :: r == Ok(IdentityToken(1, key)) <==>
            |payload| == 33 && payload[0] == 1 && payload[1..] == key && usable(key))
  {
  }

  predicate NoSymbol(s: string, i: nat) {
    i < |s| && forall v: Symbol :: Char(v) != s[i]
  }

  /** Position `i` is the first outside the alphabet. */
  predicate FirstForeign(s: string, i: nat) {
    NoSymbol(s, i) && forall k :: 0 <= k < i ==> !NoSymbol(s, k)
  }

  lemma TextHasSymbols(data: seq<Symbol>, i: nat)
    ensures !NoSymbol(Text(data), i)
  {
    if i < |data| {
      assert Text(data)[i] == Char(data[i]);
    }
  }

  /** The symbols of `rest`, or the first character outside the alphabet. */
  method ReadSymbols(rest: string) returns (data: seq<Symbol>, bad: Option<nat>)
    ensures bad.None? <==> rest == Text(data)
    ensures bad.Some? <==> exists i: nat :: NoSymbol(rest, i)
    ensures bad.Some? ==> FirstForeign(rest, bad.value)
  {
    data := [];
    for i := 0 to |rest|
      invariant Text(data) == rest[..i]
      invariant forall k :: 0 <= k < i ==> !NoSymbol(rest, k)
    {
      var v := Position(rest[i], 0);
      if v.None? {
        assert NoSymbol(rest, i);
        return data, Some(i);
      }
      data := data + [v.value];
    }
    bad := None;
  }

  lemma SealedShape(d: seq<Symbol>)
    ensures |Sealed(d)| == |d| + 12 && Sealed(d)[5] == '1' && Sealed(d)[6..] == Text(d + Tail(d))
    ensures forall i :: 0 <= i < 6 ==> IsAscii(Sealed(d)[i]) && !Upper(Sealed(d)[i])
  {
  }

  lemma LastOneAt(s: string, i: nat)
    requires i < |s| && s[i] == '1' && '1' !in s[i + 1..]
    ensures LastOne(s) == Some(i)
  {
    NoOneAfter(s, i);
    NoOneAfter(s, LastOne(s).value);
  }

  lemma TokenIsAscii(s: string, payload: seq<Byte>)
    requires IsToken(s, payload)
    ensures forall i :: 0 <= i < |s| ==> IsAscii(s[i]) && !Upper(s[i])
  {
    var d :| Spells(d, payload) && s == Sealed(d);
    SealedShape(d);
    forall i | 6 <= i < |s| ensures IsAscii(s[i]) && !Upper(s[i]) {
      CharIsLowerAscii((d + Tail(d))[i - 6]);
      assert s[i] == s[6..][i - 6];
    }
  }

  // ---- Why a string is refused ----

  /** The symbols of `s` after its last separator, long enough to hold a checksum. */
  ghost predicate Reads(s: string, data: seq<Symbol>) {
    LastOne(s).Some? && s[LastOne(s).value + 1..] == Text(data) && |data| >= 6
  }

  /** The symbols are readable and their checksum holds under the text before the separator. */
  ghost predicate Verifies(s: string, data: seq<Symbol>) {
    Reads(s, data) && Bech32m.VerifyChecksum(s[..LastOne(s).value], Words(data))
  }

  /** No separator, or a string whole under another human-readable part. */
  ghost predicate Misnamed(s: string) {
    LastOne(s).None? || exists data :: Verifies(s, data) && s[..LastOne(s).value] != TOKEN_HRP
  }

  /** Too short for a checksum, or readable with a checksum that does not hold. */
  ghost predicate Damaged(s: string) {
    LastOne(s).Some? && (|s| - LastOne(s).value <= 6 || exists data :: Reads(s, data) && !Verifies(s, data))
  }

  /** Long enough for a checksum, and `p` holds the first character after the separator that is no symbol. */
  ghost predicate Foreign(s: string, p: nat) {
    var sep := LastOne(s);
    sep.Some? && |s| - sep.value > 6 && p > sep.value && FirstForeign(s[sep.value + 1..], p - sep.value - 1)
  }

  /** The symbols spell no payload, or one that is not a version byte and a key. */
  ghost predicate NoKey(d: seq<Symbol>, usable: seq<Byte> -> bool) {
    forall payload :: Spells(d, payload) ==> Verdict(payload, usable) == Err(BadLength)
  }

  /** Sealed around no version byte and key. */
  ghost predicate Misshapen(s: string, usable: seq<Byte> -> bool) {
    exists d :: s == Sealed(d) && NoKey(d, usable)
  }

  lemma ReadsOnce(s: string, data: seq<Symbol>, other: seq<Symbol>)
    requires Reads(s, data) && Reads(s, other)
    ensures data == other
  {
    TextIsInjective(data, other);
  }

  lemma SealedReads(d: seq<Symbol>)
    ensures Verifies(Sealed(d), d + Tail(d)) && Sealed(d)[..LastOne(Sealed(d)).value] == TOKEN_HRP
  {
    SealedShape(d);
    TextHasNoOne(d + Tail(d));
    LastOneAt(Sealed(d), 5);
    SealedVerifies(d);
    assert Sealed(d)[..5] == TOKEN_HRP;
  }

  lemma UnreadableIsRefused(s: string, usable: seq<Byte> -> bool)
    requires forall data :: !Reads(s, data)
    ensures !Misshapen(s, usable) && forall payload :: !IsToken(s, payload)
  {
    forall d ensures s != Sealed(d) {
      SealedReads(d);
      assert !Reads(s, d + Tail(d));
    }
  }

  lemma ForeignIsUnreadable(s: string, p: nat)
    requires Foreign(s, p)
    ensures forall data :: !Reads(s, data)
    ensures forall q: nat :: Foreign(s, q) <==> q == p
  {
    forall data ensures !Reads(s, data) {
      TextHasSymbols(data, p - LastOne(s).value - 1);
    }
  }

  /** The symbols read settle which of the refusals on name and checksum applies. */
  lemma ReadingSettles(s: string, data: seq<Symbol>)
    requires Reads(s, data)
    ensures Misnamed(s) <==> Verifies(s, data) && s[..LastOne(s).value] != TOKEN_HRP
    ensures Damaged(s) <==> !Verifies(s, data)
  {
    forall other | Reads(s, other) ensures other == data { ReadsOnce(s, data, other); }
  }

  lemma ReadableIsNotForeign(s: string, data: seq<Symbol>)
    requires Reads(s, data)
    ensures forall p: nat :: !Foreign(s, p)
  {
    forall p: nat ensures !Foreign(s, p) {
      if Foreign(s, p) {
        TextHasSymbols(data, p - LastOne(s).value - 1);
      }
    }
  }

  /** The token's data, once name and checksum hold. */
  lemma ReadingSeals(s: string, data: seq<Symbol>, d: seq<Symbol>)
    requires Reads(s, data)
    ensures s == Sealed(d) <==>
      Verifies(s, data) && s[..LastOne(s).value] == TOKEN_HRP && d == data[..|data| - 6]
  {
    if s == Sealed(d) {
      SealedReads(d);
      ReadsOnce(s, data, d + Tail(d));
      assert d == (d + Tail(d))[..|d|];
    }
    if Verifies(s, data) && s[..LastOne(s).value] == TOKEN_HRP {
      VerifiedIsSealed(data);
      assert s == s[..LastOne(s).value] + "1" + s[LastOne(s).value + 1..];
    }
  }

  /** Split at the last separator, a string is a token exactly when all the decoder's checks pass. */
  lemma TokenParts(s: string, sep: nat, data: seq<Symbol>, payload: seq<Byte>)
    requires sep < |s| && s[sep] == '1' && s[sep + 1..] == Text(data)
    ensures IsToken(s, payload) <==>
      && |data| >= 6 && s[..sep] == TOKEN_HRP && Bech32m.VerifyChecksum(TOKEN_HRP, Words(data))
      && Spells(data[..|data| - 6], payload)
  {
    TextHasNoOne(data);
    LastOneAt(s, sep);
    if IsToken(s, payload) {
      var d :| Spells(d, payload) && s == Sealed(d);
      SealedReads(d);
      TextIsInjective(data, d + Tail(d));
      assert d == data[..|data| - 6];
    }
    if |data| >= 6 {
      ReadingSeals(s, data, data[..|data| - 6]);
    }
  }

  /** The part after the case checks, on a lowercase string. */
  method DecodeLower(s: string, usable: seq<Byte> -> bool) returns (r: Result)
    ensures r != Err(TooLong) && r != Err(MixedCase)
    ensures r == Err(BadHrp) <==> Misnamed(s)
    ensures r == Err(BadChecksum) <==> Damaged(s)
    ensures forall p: nat :: r == Err(BadChar(p)) <==> Foreign(s, p)
    ensures r == Err(BadLength) <==> Misshapen(s, usable)
    ensures forall payload :: IsToken(s, payload) ==> r == Verdict(payload, usable)
    ensures r.Ok? ==> IsToken(s, [r.token.version] + r.token.rootKey)
  {
    var sep := LastOne(s);
    if sep.None? {
      UnreadableIsRefused(s, usable);
      return Err(BadHrp);
    }
    var rest := s[sep.value + 1..];
    if |rest| < 6 {
      UnreadableIsRefused(s, usable);
      return Err(BadChecksum);
    }
    var data, bad := ReadSymbols(rest);
    if bad.Some? {
      ForeignIsUnreadable(s, sep.value + 1 + bad.value);
      UnreadableIsRefused(s, usable);
      return Err(BadChar(sep.value + 1 + bad.value));
    }
    ReadableIsNotForeign(s, data);
    r := DecodeSymbols(s, sep.value, data, usable);
  }

  /** The checks on the symbols after the separator. */
  method DecodeSymbols(s: string, sep: nat, data: seq<Symbol>, usable: seq<Byte> -> bool) returns (r: Result)
    requires LastOne(s) == Some(sep) && Reads(s, data)
    ensures r != Err(TooLong) && r != Err(MixedCase)
    ensures r == Err(BadHrp) <==> Misnamed(s)
    ensures r == Err(BadChecksum) <==> Damaged(s)
    ensures r.Err? ==> !r.error.BadChar?
    ensures r == Err(BadLength) <==> Misshapen(s, usable)
    ensures forall payload :: IsToken(s, payload) ==> r == Verdict(payload, usable)
    ensures r.Ok? ==> IsToken(s, [r.token.version] + r.token.rootKey)
  {
    ReadingSettles(s, data);
    forall d ensures s == Sealed(d) <==>
      Verifies(s, data) && s[..sep] == TOKEN_HRP && d == data[..|data| - 6]
    {
      ReadingSeals(s, data, d);
    }
    var sum := Bech32m.ComputePolymod(Bech32m.HrpExpand(s[..sep]) + Words(data));
    if sum != Bech32m.BECH32M_CONST {
      return Err(BadChecksum);
    }
    if s[..sep] != TOKEN_HRP {
      return Err(BadHrp);
    }
    r := DecodePayload(data[..|data| - 6], usable);
  }

  /** The checks on what a sealed string carries. */
  method DecodePayload(d: seq<Symbol>, usable: seq<Byte> -> bool) returns (r: Result)
    ensures r.Err? ==> r.error.BadLength? || r.error.UnknownVersion? || r.error.WeakKey?
    ensures r == Err(BadLength) <==> NoKey(d, usable)
    ensures forall payload :: Spells(d, payload) ==> r == Verdict(payload, usable)
    ensures r.Ok? ==> Spells(d, [r.token.version] + r.token.rootKey)
  {
    var payload := ToEightBit(d);
    if payload.None? {
      return Err(BadLength);
    }
    OkNamesPayload(payload.value, usable);
    r := Verdict(payload.value, usable);
  }

  /** Position `i` is the first outside ASCII. */
  predicate FirstWide(s: string, i: nat) {
    i < |s| && !IsAscii(s[i]) && forall k :: 0 <= k < i ==> IsAscii(s[k])
  }

  method FirstNonAscii(s: string) returns (r: Option<nat>)
    ensures r.Some? ==> FirstWide(s, r.value)
    ensures r.None? ==> forall i :: 0 <= i < |s| ==> IsAscii(s[i])
  {
    for i := 0 to |s|
      invariant forall k :: 0 <= k < i ==> IsAscii(s[k])
    {
      if !IsAscii(s[i]) {
        return Some(i);
      }
    }
    r := None;
  }

  lemma NonAsciiIsNoToken(s: string, i: nat)
    requires i < |s| && !IsAscii(s[i])
    ensures forall payload :: !IsToken(s, payload)
  {
    forall payload ensures !IsToken(s, payload) {
      if IsToken(s, payload) {
        TokenIsAscii(s, payload);
      }
    }
  }

  lemma OkMeansToken(accepted: seq<Byte> -> bool, usable: seq<Byte> -> bool, r: Result)
    requires forall payload :: accepted(payload) ==> r == Verdict(payload, usable)
    requires r.Ok? ==> accepted([r.token.version] + r.token.rootKey)
    ensures r.Ok? ==> r.token.version == TOKEN_VERSION
    ensures forall key :: r == Ok(IdentityToken(TOKEN_VERSION, key)) <==>
      |key| == 32 && usable(key) && accepted([TOKEN_VERSION] + key)
  {
    forall key ensures r == Ok(IdentityToken(TOKEN_VERSION, key)) <==>
      |key| == 32 && usable(key) && accepted([TOKEN_VERSION] + key)
    {
      assert ([TOKEN_VERSION] + key)[1..] == key;
    }
  }

  /** What the decoder asks before it looks for the separator. */
  predicate Plain(s: string) {
    |s| <= 90 && (forall i :: 0 <= i < |s| ==> IsAscii(s[i])) && SingleCase(s)
  }

  /** Decoding accepts exactly the single-case spellings of a usable key's one token, what it says
      about any well-formed token is the verdict on its payload, and each refusal has one cause. */
  method DecodeToken(s: string, usable: seq<Byte> -> bool) returns (r: Result)
    ensures r == Err(TooLong) <==> |s| > 90
    ensures r == Err(MixedCase) <==>
      |s| <= 90 && (forall i :: 0 <= i < |s| ==> IsAscii(s[i])) && !SingleCase(s)
    ensures r == Err(BadHrp) <==> Plain(s) && Misnamed(Lower(s))
    ensures r == Err(BadChecksum) <==> Plain(s) && Damaged(Lower(s))
    ensures forall p: nat :: r == Err(BadChar(p)) <==>
      (|s| <= 90 && FirstWide(s, p)) || (Plain(s) && Foreign(Lower(s), p))
    ensures r == Err(BadLength) <==> Plain(s) && Misshapen(Lower(s), usable)
    ensures forall payload :: Plain(s) && IsToken(Lower(s), payload) ==> r == Verdict(payload, usable)
    ensures forall key :: r == Ok(IdentityToken(TOKEN_VERSION, key)) <==>
      |key| == 32 && usable(key) && SingleCase(s) && IsToken(Lower(s), [TOKEN_VERSION] + key)
    ensures r.Ok? ==> r.token.version == TOKEN_VERSION
  {
    if |s| > MAX_TOKEN_CHARS {
      forall key | |key| == 32 ensures IsToken(Lower(s), [TOKEN_VERSION] + key) ==> |s| == 65 {
        TokenLength(Lower(s), [TOKEN_VERSION] + key);
      }
      return Err(TooLong);
    }
    var bad := FirstNonAscii(s);
    if bad.Some? {
      NonAsciiIsNoToken(Lower(s), bad.value);
      return Err(BadChar(bad.value));
    }
    if !SingleCase(s) {
      return Err(MixedCase);
    }
    r := DecodeLower(Lower(s), usable);
    OkMeansToken(payload => IsToken(Lower(s), payload), usable, r);
  }

  lemma TokenIsPlain(token: string, rootKey: seq<Byte>)
    requires IsToken(token, [TOKEN_VERSION] + rootKey) && |token| == 65
    ensures Plain(token) && Lower(token) == token
  {
    TokenIsAscii(token, [TOKEN_VERSION] + rootKey);
  }

  /** Every usable key survives the trip through its token. */
  method RoundTrip(rootKey: seq<Byte>, usable: seq<Byte> -> bool) returns (token: string, r: Result)
    requires |rootKey| == 32
    ensures |token| == 65
    ensures r == if usable(rootKey) then Ok(IdentityToken(TOKEN_VERSION, rootKey)) else Err(WeakKey)
  {
    token := EncodeToken(rootKey);
    TokenIsPlain(token, rootKey);
    r := DecodeToken(token, usable);
    VerdictOnKey(rootKey, usable);
  }

  lemma SameCharacterSameWord(s: string, t: string, d: seq<Symbol>, e: seq<Symbol>, i: nat)
    requires s == Sealed(d) && t == Sealed(e) && |s| == |t| && i < |d| + 6 && s[i + 6] == t[i + 6]
    ensures |d| == |e| && Words(d + Tail(d))[i] == Words(e + Tail(e))[i]
  {
    SealedShape(d);
    SealedShape(e);
    assert s[6..][i] == s[i + 6] == t[i + 6] == t[6..][i];
    RankOfChar((d + Tail(d))[i]);
    RankOfChar((e + Tail(e))[i]);
  }

  lemma SameWordsSameToken(d: seq<Symbol>, e: seq<Symbol>)
    requires Words(d + Tail(d)) == Words(e + Tail(e))
    ensures Sealed(d) == Sealed(e)
  {
    GroupsInvertWords(d + Tail(d), Words(d + Tail(d)));
    GroupsInvertWords(e + Tail(e), Words(e + Tail(e)));
  }

  /** Misreading at most six neighbouring characters of a token never yields another token. */
  lemma MisreadTokenIsRefused(s: string, t: string, p: seq<Byte>, q: seq<Byte>, start: nat)
    requires IsToken(s, p) && IsToken(t, q) && |s| == |t|
    requires forall i :: 0 <= i < |s| && (i < start || start + 6 <= i) ==> s[i] == t[i]
    ensures s == t
  {
    var d :| Spells(d, p) && s == Sealed(d);
    var e :| Spells(e, q) && t == Sealed(e);
    var from := if start < 6 then 0 else start - 6;
    assert |d| == |e|;
    forall i | 0 <= i < |d| + 6 && (i < from || from + 6 <= i) ensures Words(d + Tail(d))[i] == Words(e + Tail(e))[i] {
      SameCharacterSameWord(s, t, d, e, i);
    }
    SealedVerifies(d);
    SealedVerifies(e);
    Bech32m.TwoTokensDifferWidely(TOKEN_HRP, Words(d + Tail(d)), Words(e + Tail(e)), from);
    SameWordsSameToken(d, e);
  }

  /** Nor does misreading any three characters of a string the decoder does not find too long. */
  lemma MisreadTripleIsRefused(s: string, t: string, p: seq<Byte>, q: seq<Byte>, j: int, k: int, l: int)
    requires IsToken(s, p) && IsToken(t, q) && |s| == |t| <= MAX_TOKEN_CHARS
    requires forall i :: 0 <= i < |s| && i != j && i != k && i != l ==> s[i] == t[i]
    ensures s == t
  {
    var d :| Spells(d, p) && s == Sealed(d);
    var e :| Spells(e, q) && t == Sealed(e);
    assert |d| == |e|;
    var a, b := Words(d + Tail(d)), Words(e + Tail(e));
    forall i | 0 <= i < |a| && i != j - 6 && i != k - 6 && i != l - 6 ensures a[i] == b[i] {
      SameCharacterSameWord(s, t, d, e, i);
    }
    SealedVerifies(d);
    SealedVerifies(e);
    Substitutions.ThreeSubstitutionsAreDetected(TOKEN_HRP, a, b, j - 6, k - 6, l - 6);
    SameWordsSameToken(d, e);
  }
}
