/** JSON values and their RFC 8785 canonical text.

    Strings are byte strings, one `char` per UTF-8 byte. An object is a map, so member order is
    not part of a value. A number is carried as its canonical ECMAScript spelling, which covers
    integers and doubles alike. */
module Json {
  import opened Ordering
  import Decimal

  datatype Json =
    | Null
    | Bool(b: bool)
    | Num(spelling: string)
    | Str(s: string)
    | Arr(items: seq<Json>)
    | Obj(members: map<string, Json>)

  predicate NumberChar(c: char) {
    '0' <= c <= '9' || c == '-' || c == '+' || c == '.' || c == 'e'
  }

  predicate AllNumberChars(s: string) {
    forall i :: 0 <= i < |s| ==> NumberChar(s[i])
  }

  /** Every number is spelled with number characters. */
  ghost predicate WellFormed(v: Json)
    decreases v
  {
    match v
    case Num(t) => |t| > 0 && AllNumberChars(t)
    case Arr(items) => forall x :: x in items ==> WellFormed(x)
    case Obj(members) => forall k :: k in members ==> WellFormed(members[k])
    case _ => true
  }

  /** A non-negative integer. */
  function Int(n: nat): (v: Json)
    ensures WellFormed(v)
  {
    Num(Decimal.Print(n))
  }

  lemma IntIsInjective(m: nat, n: nat)
    requires Int(m) == Int(n)
    ensures m == n
  {
    Decimal.PrintIsInjective(m, n);
  }

  /** `Value::get` on an object. */
  function Get(v: Json, name: string): Json {
    if v.Obj? && name in v.members then v.members[name] else Null
  }

  /** An array of `write`-rendered items. */
  function ArrayOf<T>(items: seq<T>, write: T -> Json): Json {
    Arr(seq(|items|, i requires 0 <= i < |items| => write(items[i])))
  }

  lemma ArrayOfIsInjective<T(!new)>(a: seq<T>, b: seq<T>, write: T -> Json)
    requires ArrayOf(a, write) == ArrayOf(b, write) && forall x, y :: write(x) == write(y) ==> x == y
    ensures a == b
  {
    assert |a| == |ArrayOf(a, write).items| == |b|;
    forall i | 0 <= i < |a| ensures a[i] == b[i] {
      assert ArrayOf(a, write).items[i] == ArrayOf(b, write).items[i];
    }
  }

  lemma ArrayOfIsWellFormed<T>(items: seq<T>, write: T -> Json)
    requires forall i :: 0 <= i < |items| ==> WellFormed(write(items[i]))
    ensures WellFormed(ArrayOf(items, write))
  {
    var written := ArrayOf(items, write).items;
    forall x | x in written ensures WellFormed(x) {
      var i :| 0 <= i < |written| && written[i] == x;
      assert x == write(items[i]);
    }
  }

  // ---- Canonical text (RFC 8785) ----

  function HexDigit(d: nat): char
    requires d < 16
  {
    if d < 10 then '0' + d as char else 'a' + (d - 10) as char
  }

  function EscapeChar(c: char): (e: string)
    ensures |e| > 0 && e[0] != '"'
  {
    if c == '"' then "\\\""
    else if c == '\\' then "\\\\"
    else if c == 8 as char then "\\b"
    else if c == 9 as char then "\\t"
    else if c == 10 as char then "\\n"
    else if c == 12 as char then "\\f"
    else if c == 13 as char then "\\r"
    else if c < 32 as char then "\\u00" + [HexDigit(c as nat / 16), HexDigit(c as nat % 16)]
    else [c]
  }

  /** The escaped characters of `s`, the closing quote, then `rest`. */
  function WriteEscaped(s: string, rest: string): string {
    if |s| == 0 then "\"" + rest else EscapeChar(s[0]) + WriteEscaped(s[1..], rest)
  }

  /** A quoted string, then `rest`. */
  function WriteString(s: string, rest: string): string {
    "\"" + WriteEscaped(s, rest)
  }

  /** The canonical text of `v`, then `rest`. */
  function Write(v: Json, rest: string): string
    decreases v, 0
  {
    match v
    case Null => "null" + rest
    case Bool(b) => (if b then "true" else "false") + rest
    case Num(t) => t + rest
    case Str(s) => WriteString(s, rest)
    case Arr(items) => "[" + WriteElements(items, rest)
    case Obj(members) => "{" + WriteMembers(v, SortedNames(members.Keys), rest)
  }

  /** The elements, comma separated, the closing bracket, then `rest`. */
  function WriteElements(items: seq<Json>, rest: string): string
    decreases items, 0
  {
    if |items| == 0 then "]" + rest else Write(items[0], AfterElement(items, rest))
  }

  /** What follows the first element. */
  function AfterElement(items: seq<Json>, rest: string): string
    requires |items| > 0
    decreases items, 0, 0
  {
    if |items| == 1 then "]" + rest else "," + WriteElements(items[1..], rest)
  }

  /** The members named by `keys`, comma separated, the closing brace, then `rest`. */
  function WriteMembers(v: Json, keys: seq<string>, rest: string): string
    requires v.Obj? && forall k :: k in keys ==> k in v.members
    decreases v, 0, |keys|
  {
    if |keys| == 0 then "}" + rest
    else WriteString(keys[0], ":" + Write(v.members[keys[0]], AfterMember(v, keys, rest)))
  }

  /** What follows the first member's value. */
  function AfterMember(v: Json, keys: seq<string>, rest: string): string
    requires v.Obj? && |keys| > 0 && forall k :: k in keys ==> k in v.members
    decreases v, 0, |keys|, 0
  {
    if |keys| == 1 then "}" + rest else "," + WriteMembers(v, keys[1..], rest)
  }

  /** RFC 8785 text. */
  function Canonical(v: Json): string {
    Write(v, "")
  }

  // ---- A strict reader of canonical text ----

  /** What was read and what is left, or a refusal. */
  datatype Scan<T> = Got(value: T, rest: string) | Unread

  /** The control character `\u00` and two digits stand for, if it has no shorter escape. */
  function ControlCode(high: char, low: char): (r: Scan<char>)
    ensures r.Got? ==> r.value < 32 as char
  {
    if (high != '0' && high != '1') || !('0' <= low <= '9' || 'a' <= low <= 'f') then Unread
    else
      var n := (high - '0') as nat * 16 + (if low <= '9' then (low - '0') as nat else (low - 'a') as nat + 10);
      if n == 8 || n == 9 || n == 10 || n == 12 || n == 13 then Unread else Got(n as char, "")
  }

  /** The rest of an escape, after its backslash. */
  function ReadEscape(s: string): (r: Scan<char>)
    ensures r.Got? ==> |r.rest| < |s|
  {
    if s == "" then Unread
    else if s[0] == '"' || s[0] == '\\' then Got(s[0], s[1..])
    else if s[0] == 'b' then Got(8 as char, s[1..])
    else if s[0] == 't' then Got(9 as char, s[1..])
    else if s[0] == 'n' then Got(10 as char, s[1..])
    else if s[0] == 'f' then Got(12 as char, s[1..])
    else if s[0] == 'r' then Got(13 as char, s[1..])
    else if |s| >= 5 && s[..3] == "u00" && ControlCode(s[3], s[4]).Got? then Got(ControlCode(s[3], s[4]).value, s[5..])
    else Unread
  }

  /** One character of a string, escaped or not. */
  function ReadChar(s: string): (r: Scan<char>)
    ensures r.Got? ==> |r.rest| < |s|
  {
    if s == "" || s[0] == '"' || s[0] < 32 as char then Unread
    else if s[0] == '\\' then ReadEscape(s[1..])
    else Got(s[0], s[1..])
  }

  /** The characters of a string and its closing quote. */
  function ReadEscaped(s: string): (r: Scan<string>)
    ensures r.Got? ==> |r.rest| < |s|
  {
    if s == "" then Unread
    else if s[0] == '"' then Got("", s[1..])
    else
      match ReadChar(s)
      case Unread => Unread
      case Got(c, x) =>
        (match ReadEscaped(x)
         case Unread => Unread
         case Got(t, y) => Got([c] + t, y))
  }

  /** The length of the run of number characters at the front. */
  function NumberEnd(s: string): (n: nat)
    ensures n <= |s| && AllNumberChars(s[..n]) && (n < |s| ==> !NumberChar(s[n]))
  {
    if s == "" || !NumberChar(s[0]) then 0 else 1 + NumberEnd(s[1..])
  }

  function ReadValue(s: string): (r: Scan<Json>)
    ensures r.Got? ==> |r.rest| < |s|
    decreases |s|, 0
  {
    if s == "" then Unread
    else if s[0] == '"' then
      (match ReadEscaped(s[1..]) case Unread => Unread case Got(t, x) => Got(Str(t), x))
    else if s[0] == '[' then
      (match ReadElements(s[1..], true) case Unread => Unread case Got(items, x) => Got(Arr(items), x))
    else if s[0] == '{' then
      (match ReadMembers(s[1..], []) case Unread => Unread case Got(members, x) => Got(Obj(members), x))
    else if NumberChar(s[0]) then Got(Num(s[..NumberEnd(s)]), s[NumberEnd(s)..])
    else if "null" <= s then Got(Null, s[4..])
    else if "true" <= s then Got(Bool(true), s[4..])
    else if "false" <= s then Got(Bool(false), s[5..])
    else Unread
  }

  /** Elements and the closing bracket; only a list that opens with it is empty. */
  function ReadElements(s: string, first: bool): (r: Scan<seq<Json>>)
    ensures r.Got? ==> |r.rest| < |s|
    decreases |s|, 1
  {
    if first && s != "" && s[0] == ']' then Got([], s[1..])
    else
      match ReadValue(s)
      case Unread => Unread
      case Got(v, x) =>
        if x == "" then Unread
        else if x[0] == ']' then Got([v], x[1..])
        else if x[0] == ',' then
          (match ReadElements(x[1..], false) case Unread => Unread case Got(vs, y) => Got([v] + vs, y))
        else Unread
  }

  /** A name, a colon and a value. */
  function ReadMember(s: string): (r: Scan<(string, Json)>)
    ensures r.Got? ==> |r.rest| < |s|
    decreases |s|, 1
  {
    if s == "" || s[0] != '"' then Unread
    else
      match ReadEscaped(s[1..])
      case Unread => Unread
      case Got(k, x) =>
        if x == "" || x[0] != ':' then Unread
        else
          (match ReadValue(x[1..]) case Unread => Unread case Got(v, y) => Got((k, v), y))
  }

  /** Members and the closing brace, with names that ascend from those `before`. */
  function ReadMembers(s: string, before: seq<string>): (r: Scan<map<string, Json>>)
    ensures r.Got? ==> |r.rest| < |s|
    decreases |s|, 2
  {
    if before == [] && s != "" && s[0] == '}' then Got(map[], s[1..])
    else
      match ReadMember(s)
      case Unread => Unread
      case Got(member, x) =>
        var (k, v) := member;
        if x == "" || (before != [] && !NameLess(before[0], k)) then Unread
        else if x[0] == '}' then Got(map[k := v], x[1..])
        else if x[0] == ',' then
          (match ReadMembers(x[1..], [k]) case Unread => Unread case Got(m, y) => Got(m[k := v], y))
        else Unread
  }

  /** The value a whole text is the canonical spelling of. */
  function ReadCanonical(s: string): Scan<Json> {
    match ReadValue(s)
    case Unread => Unread
    case Got(v, rest) => if rest == "" then Got(v, "") else Unread
  }

  // ---- What is written is read ----

  /** Text that may follow a value inside a document. */
  predicate Delimited(rest: string) {
    |rest| == 0 || rest[0] == ',' || rest[0] == ']' || rest[0] == '}'
  }

  lemma CharReads(c: char, x: string)
    ensures ReadChar(EscapeChar(c) + x) == Got(c, x)
  {
    var e := EscapeChar(c);
    var s := e + x;
    assert s[|e|..] == x;
    if |e| == 2 {
      assert s[1..] == e[1..] + x && s[1..][1..] == x;
    } else if |e| == 6 {
      assert s[1..][..3] == "u00" && s[1..][3] == e[4] && s[1..][4] == e[5] && s[1..][5..] == x;
    }
  }

  lemma {:induction false} StringReads(t: string, x: string)
    ensures ReadEscaped(WriteEscaped(t, x)) == Got(t, x)
  {
    if |t| == 0 {
      assert WriteEscaped(t, x)[1..] == x;
    } else {
      CharReads(t[0], WriteEscaped(t[1..], x));
      StringReads(t[1..], x);
      assert t == [t[0]] + t[1..];
    }
  }

  lemma {:induction false} NumberReads(t: string, x: string)
    requires AllNumberChars(t) && Delimited(x)
    ensures NumberEnd(t + x) == |t| && (t + x)[..|t|] == t && (t + x)[|t|..] == x
  {
    if |t| > 0 {
      NumberReads(t[1..], x);
      assert (t + x)[1..] == t[1..] + x;
    } else {
      assert t + x == x;
    }
  }

  /** The first character tells a value's kind. */
  lemma {:induction false} FirstChar(v: Json, x: string)
    requires WellFormed(v)
    ensures |Write(v, x)| > 0
    ensures Write(v, x)[0] == match v
                              case Null => 'n'
                              case Bool(b) => (if b then 't' else 'f')
                              case Num(t) => t[0]
                              case Str(_) => '"'
                              case Arr(_) => '['
                              case Obj(_) => '{'
  {
  }

  lemma {:induction false} LiteralReads(v: Json, x: string)
    requires v.Null? || v.Bool?
    ensures ReadValue(Write(v, x)) == Got(v, x)
  {
    var word := if v.Null? then "null" else if v.b then "true" else "false";
    assert Write(v, x) == word + x && (word + x)[|word|..] == x;
    assert word <= word + x;
  }

  /** Canonical text reads back as the value it was written for. */
  lemma {:induction false} ValueReads(v: Json, x: string)
    requires WellFormed(v) && Delimited(x)
    ensures ReadValue(Write(v, x)) == Got(v, x)
    decreases v, 1
  {
    FirstChar(v, x);
    var s := Write(v, x);
    match v
    case Null => LiteralReads(v, x);
    case Bool(_) => LiteralReads(v, x);
    case Num(t) => NumberReads(t, x);
    case Str(t) =>
      assert s[1..] == WriteEscaped(t, x);
      StringReads(t, x);
    case Arr(items) =>
      assert s[1..] == WriteElements(items, x);
      ElementsRead(items, x, true);
    case Obj(members) =>
      var keys := SortedNames(members.Keys);
      assert s[1..] == WriteMembers(v, keys, x);
      forall i, j | 0 <= i < j < |keys| ensures NameLess(keys[i], keys[j]) { SortedNamesAscend(members.Keys, i, j); }
      MembersRead(v, keys, x, []);
      assert Named(v, keys) == members;
  }

  lemma LastElementReads(v: Json, x: string, first: bool)
    requires WellFormed(v) && ReadValue(Write(v, "]" + x)) == Got(v, "]" + x)
    ensures ReadElements(Write(v, "]" + x), first) == Got([v], x)
  {
    FirstChar(v, "]" + x);
    assert ("]" + x)[1..] == x;
  }

  lemma NextElementReads(v: Json, more: string, vs: seq<Json>, x: string, first: bool)
    requires WellFormed(v) && ReadValue(Write(v, "," + more)) == Got(v, "," + more)
    requires ReadElements(more, false) == Got(vs, x)
    ensures ReadElements(Write(v, "," + more), first) == Got([v] + vs, x)
  {
    FirstChar(v, "," + more);
    assert ("," + more)[1..] == more;
  }

  lemma {:induction false} ElementsRead(items: seq<Json>, x: string, first: bool)
    requires (forall v :: v in items ==> WellFormed(v)) && (first || items != [])
    ensures ReadElements(WriteElements(items, x), first) == Got(items, x)
    decreases items, 0
  {
    if items == [] {
      assert WriteElements(items, x)[1..] == x;
    } else {
      ValueReads(items[0], AfterElement(items, x));
      if |items| == 1 {
        LastElementReads(items[0], x, first);
        assert items == [items[0]];
      } else {
        ElementsRead(items[1..], x, false);
        NextElementReads(items[0], WriteElements(items[1..], x), items[1..], x, first);
        assert items == [items[0]] + items[1..];
      }
    }
  }

  /** The members that `keys` name. */
  function Named(v: Json, keys: seq<string>): map<string, Json>
    requires v.Obj? && forall k :: k in keys ==> k in v.members
  {
    map k | k in keys :: v.members[k]
  }

  predicate Ascends(keys: seq<string>) {
    forall i, j :: 0 <= i < j < |keys| ==> NameLess(keys[i], keys[j])
  }

  lemma {:induction false} MemberReads(k: string, v: Json, x: string)
    requires ReadValue(Write(v, x)) == Got(v, x)
    ensures ReadMember(WriteString(k, ":" + Write(v, x))) == Got((k, v), x)
  {
    var text := ":" + Write(v, x);
    assert WriteString(k, text)[1..] == WriteEscaped(k, text);
    StringReads(k, text);
    assert text[1..] == Write(v, x);
  }

  lemma NamedCons(v: Json, keys: seq<string>)
    requires v.Obj? && keys != [] && forall k :: k in keys ==> k in v.members
    ensures Named(v, keys) == Named(v, keys[1..])[keys[0] := v.members[keys[0]]]
  {
    assert forall k :: k in keys <==> k == keys[0] || k in keys[1..];
  }

  lemma {:induction false} MembersRead(v: Json, keys: seq<string>, x: string, before: seq<string>)
    requires v.Obj? && WellFormed(v) && (forall k :: k in keys ==> k in v.members) && Ascends(keys)
    requires before != [] ==> keys != [] && NameLess(before[0], keys[0])
    ensures ReadMembers(WriteMembers(v, keys, x), before) == Got(Named(v, keys), x)
    decreases v, 0, |keys|
  {
    if keys == [] {
      assert WriteMembers(v, keys, x)[1..] == x;
      assert Named(v, keys) == map[];
    } else {
      var k, after := keys[0], AfterMember(v, keys, x);
      ValueReads(v.members[k], after);
      MemberReads(k, v.members[k], after);
      NamedCons(v, keys);
      if |keys| == 1 {
        assert after[1..] == x;
        assert Named(v, keys[1..]) == map[];
      } else {
        assert after[1..] == WriteMembers(v, keys[1..], x);
        MembersRead(v, keys[1..], x, [k]);
      }
    }
  }

  // ---- What is read was written ----

  lemma {:induction false} ControlCodeIsWritten(high: char, low: char)
    requires ControlCode(high, low).Got?
    ensures EscapeChar(ControlCode(high, low).value) == "\\u00" + [high, low]
  {
    var n := ControlCode(high, low).value as nat;
    assert n / 16 == (high - '0') as nat;
    assert n % 16 == if low <= '9' then (low - '0') as nat else (low - 'a') as nat + 10;
  }

  lemma ShortEscapeIsWritten(t: string)
    requires ReadEscape(t).Got? && t[0] != 'u'
    ensures EscapeChar(ReadEscape(t).value) == "\\" + [t[0]] && ReadEscape(t).rest == t[1..]
  {
  }

  lemma LongEscapeIsWritten(t: string)
    requires ReadEscape(t).Got? && t[0] == 'u'
    ensures EscapeChar(ReadEscape(t).value) == "\\" + t[..5] && ReadEscape(t).rest == t[5..]
  {
    ControlCodeIsWritten(t[3], t[4]);
    assert t[..5] == t[..3] + [t[3], t[4]];
  }

  lemma Rejoins(q: string, t: string, n: nat)
    requires n <= |t|
    ensures q + t == (q + t[..n]) + t[n..]
  {
  }

  lemma EscapeIsWritten(t: string)
    requires ReadEscape(t).Got?
    ensures "\\" + t == EscapeChar(ReadEscape(t).value) + ReadEscape(t).rest
  {
    var n := if t[0] == 'u' then 5 else 1;
    if t[0] == 'u' {
      LongEscapeIsWritten(t);
    } else {
      ShortEscapeIsWritten(t);
      assert t[..1] == [t[0]];
    }
    Rejoins("\\", t, n);
  }

  lemma CharIsWritten(s: string)
    requires ReadChar(s).Got?
    ensures s == EscapeChar(ReadChar(s).value) + ReadChar(s).rest
  {
    assert s == [s[0]] + s[1..];
    if s[0] == '\\' {
      EscapeIsWritten(s[1..]);
    }
  }

  lemma {:induction false} StringIsWritten(s: string)
    requires ReadEscaped(s).Got?
    ensures s == WriteEscaped(ReadEscaped(s).value, ReadEscaped(s).rest)
  {
    if s[0] == '"' {
      assert s == "\"" + s[1..];
    } else {
      CharIsWritten(s);
      var c, x := ReadChar(s).value, ReadChar(s).rest;
      StringIsWritten(x);
      var t := ReadEscaped(x).value;
      assert ([c] + t)[1..] == t;
    }
  }

  /** A text the reader accepts is the canonical text of what it reads. */
  lemma {:induction false} ValueIsWritten(s: string)
    requires ReadValue(s).Got?
    ensures WellFormed(ReadValue(s).value) && s == Write(ReadValue(s).value, ReadValue(s).rest)
    decreases |s|, 0
  {
    var t := s[1..];
    assert s == [s[0]] + t;
    if s[0] == '"' {
      StringIsWritten(t);
    } else if s[0] == '[' {
      ElementsAreWritten(t, true);
    } else if s[0] == '{' {
      MembersAreWritten(t, []);
    } else if NumberChar(s[0]) {
      assert NumberEnd(s) > 0 && s == s[..NumberEnd(s)] + s[NumberEnd(s)..];
    } else {
      var word := if "null" <= s then "null" else if "true" <= s then "true" else "false";
      assert word <= s;
      assert s == word + s[|word|..];
    }
  }

  lemma {:induction false} ElementsAreWritten(s: string, first: bool)
    requires ReadElements(s, first).Got?
    ensures var items := ReadElements(s, first).value;
      && (first || items != []) && (forall v :: v in items ==> WellFormed(v))
      && s == WriteElements(items, ReadElements(s, first).rest)
    decreases |s|, 1
  {
    if first && s[0] == ']' {
      assert s == "]" + s[1..];
    } else {
      ValueIsWritten(s);
      var v, x := ReadValue(s).value, ReadValue(s).rest;
      assert x == [x[0]] + x[1..];
      if x[0] == ',' {
        ElementsAreWritten(x[1..], false);
        var vs := ReadElements(x[1..], false).value;
        assert ([v] + vs)[1..] == vs;
      }
    }
  }

  /** Writing members looks at the named ones only. */
  lemma {:induction false} SameMembersWritten(v: Json, w: Json, keys: seq<string>, x: string)
    requires v.Obj? && w.Obj?
    requires forall k :: k in keys ==> k in v.members && k in w.members && v.members[k] == w.members[k]
    ensures WriteMembers(v, keys, x) == WriteMembers(w, keys, x)
    decreases |keys|
  {
    if |keys| > 1 {
      SameMembersWritten(v, w, keys[1..], x);
    }
  }

  lemma {:induction false} MemberIsWritten(s: string)
    requires ReadMember(s).Got?
    ensures var (k, v) := ReadMember(s).value;
      WellFormed(v) && s == WriteString(k, ":" + Write(v, ReadMember(s).rest))
    decreases |s|, 1
  {
    var x := ReadEscaped(s[1..]).rest;
    StringIsWritten(s[1..]);
    ValueIsWritten(x[1..]);
    assert s == "\"" + s[1..] && x == ":" + x[1..];
  }

  lemma MembersFollow(k: string, m: map<string, Json>, before: seq<string>)
    requires before != [] ==> NameLess(before[0], k)
    requires forall j :: j in m ==> NameLess(k, j)
    ensures before != [] ==> forall j :: j in m || j == k ==> NameLess(before[0], j)
  {
    NameOrder();
  }

  lemma LastMember(k: string, v: Json, x: string)
    ensures WriteMembers(Obj(map[k := v]), SortedNames(map[k := v].Keys), x) == WriteString(k, ":" + Write(v, "}" + x))
  {
    NameOrder();
    LeastFirst(NameLess, {}, k);
    assert map[k := v].Keys == {} + {k};
    assert SortedNames(map[k := v].Keys) == [k];
  }

  lemma OneMoreMember(k: string, v: Json, m: map<string, Json>, x: string)
    requires m != map[] && forall j :: j in m ==> NameLess(k, j)
    ensures WriteMembers(Obj(m[k := v]), SortedNames(m[k := v].Keys), x) ==
      WriteString(k, ":" + Write(v, "," + WriteMembers(Obj(m), SortedNames(m.Keys), x)))
  {
    var keys := SortedNames(m.Keys);
    LeastKey(m.Keys, k);
    assert m[k := v].Keys == m.Keys + {k};
    assert ([k] + keys)[1..] == keys && |keys| > 0;
    SameMembersWritten(Obj(m[k := v]), Obj(m), keys, x);
  }

  lemma LeastKey(s: set<string>, k: string)
    requires s != {} && forall j :: j in s ==> NameLess(k, j)
    ensures SortedNames(s + {k}) == [k] + SortedNames(s) && |SortedNames(s)| > 0 && k !in s
  {
    NameOrder();
    LeastFirst(NameLess, s, k);
    var j :| j in s;
    assert j in SortedNames(s);
  }

  /** `s` is `m` written, then `rest`, with names after those `before`. */
  ghost predicate Stands(s: string, m: map<string, Json>, rest: string, before: seq<string>) {
    && (before != [] ==> m != map[] && forall k :: k in m ==> NameLess(before[0], k))
    && WellFormed(Obj(m)) && s == WriteMembers(Obj(m), SortedNames(m.Keys), rest)
  }

  lemma LastStands(k: string, v: Json, x: string, before: seq<string>)
    requires WellFormed(v) && (before != [] ==> NameLess(before[0], k))
    ensures Stands(WriteString(k, ":" + Write(v, "}" + x)), map[k := v], x, before)
  {
    LastMember(k, v, x);
  }

  lemma NextStands(k: string, v: Json, more: string, m: map<string, Json>, x: string, before: seq<string>)
    requires WellFormed(v) && (before != [] ==> NameLess(before[0], k)) && Stands(more, m, x, [k])
    ensures Stands(WriteString(k, ":" + Write(v, "," + more)), m[k := v], x, before)
  {
    var all := m[k := v];
    assert WriteMembers(Obj(all), SortedNames(all.Keys), x) == WriteString(k, ":" + Write(v, "," + more)) by {
      OneMoreMember(k, v, m, x);
    }
    NamesFollow(k, v, m, all, before);
  }

  lemma NamesFollow(k: string, v: Json, m: map<string, Json>, all: map<string, Json>, before: seq<string>)
    requires all == m[k := v] && WellFormed(v) && WellFormed(Obj(m))
    requires (before != [] ==> NameLess(before[0], k)) && forall j :: j in m ==> NameLess(k, j)
    ensures before != [] ==> all != map[] && forall j :: j in all ==> NameLess(before[0], j)
    ensures WellFormed(Obj(all))
  {
    assert k in all;
    MembersFollow(k, m, before);
  }

  lemma {:induction false} MembersAreWritten(s: string, before: seq<string>)
    requires ReadMembers(s, before).Got?
    ensures Stands(s, ReadMembers(s, before).value, ReadMembers(s, before).rest, before)
    decreases |s|, 2
  {
    if before == [] && s[0] == '}' {
      assert s == "}" + s[1..];
    } else {
      MemberIsWritten(s);
      var (k, v) := ReadMember(s).value;
      var x := ReadMember(s).rest;
      assert x == [x[0]] + x[1..];
      if x[0] == '}' {
        LastStands(k, v, x[1..], before);
      } else {
        var more := ReadMembers(x[1..], [k]);
        MembersAreWritten(x[1..], [k]);
        NextStands(k, v, x[1..], more.value, more.rest, before);
      }
    }
  }

  /** RFC 8785 both ways: a text is the canonical text of a value exactly when the strict reader, which
      allows no space, no other escape and no other order, reads that value from it. */
  lemma CanonicalExactly(s: string, v: Json)
    ensures WellFormed(v) && s == Canonical(v) <==> ReadCanonical(s) == Got(v, "")
  {
    if WellFormed(v) && s == Canonical(v) {
      ValueReads(v, "");
    }
    if ReadCanonical(s) == Got(v, "") {
      ValueIsWritten(s);
    }
  }

  /** RFC 8785 text is a faithful name for a value: equal text, equal value. */
  lemma CanonicalIsInjective(v: Json, w: Json)
    requires WellFormed(v) && WellFormed(w) && Canonical(v) == Canonical(w)
    ensures v == w
  {
    CanonicalExactly(Canonical(v), v);
    CanonicalExactly(Canonical(v), w);
  }
}
