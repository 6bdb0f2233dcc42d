/** UTF-8 (section 3 of RFC 3629), and the order of its texts as UTF-16 code units. */
module Utf8 {
  import opened Ordering

  // ---- Valid text ----

  predicate Continuation(c: char) { 0x80 as char <= c <= 0xBF as char }

  /** The length a lead byte announces; zero for a byte that leads nothing. */
  function LeadLength(c: char): nat {
    if c < 0x80 as char then 1
    else if 0xC2 as char <= c <= 0xDF as char then 2
    else if 0xE0 as char <= c <= 0xEF as char then 3
    else if 0xF0 as char <= c <= 0xF4 as char then 4
    else 0
  }

  /** No overlong forms, surrogates or values past the last code point. */
  predicate SecondFits(lead: char, second: char) {
    if lead == 0xE0 as char then second >= 0xA0 as char
    else if lead == 0xED as char then second <= 0x9F as char
    else if lead == 0xF0 as char then second >= 0x90 as char
    else if lead == 0xF4 as char then second <= 0x8F as char
    else true
  }

  predicate ValidUtf8(s: string) {
    s == [] ||
    (var n := LeadLength(s[0]);
     && 0 < n <= |s| && (forall k :: 0 < k < n ==> Continuation(s[k])) && (n > 1 ==> SecondFits(s[0], s[1]))
     && ValidUtf8(s[n..]))
  }

  /** A Unicode scalar value. */
  predicate Scalar(n: nat) { n < 0xD800 || 0xE000 <= n < 0x11_0000 }

  /** Its bytes, by the table of RFC 3629. */
  function Encode(n: nat): string
    requires Scalar(n)
  {
    if n < 0x80 then [n as char]
    else if n < 0x800 then [(0xC0 + n / 64) as char, (0x80 + n % 64) as char]
    else if n < 0x1_0000 then [(0xE0 + n / 4096) as char, (0x80 + n / 64 % 64) as char, (0x80 + n % 64) as char]
    else [(0xF0 + n / 262144) as char, (0x80 + n / 4096 % 64) as char, (0x80 + n / 64 % 64) as char,
          (0x80 + n % 64) as char]
  }

  function EncodeAll(ns: seq<nat>): string
    requires forall n :: n in ns ==> Scalar(n)
  {
    if ns == [] then [] else Encode(ns[0]) + EncodeAll(ns[1..])
  }

  /** `e` is one encoded character. */
  predicate Leads(e: string) {
    && |e| > 0 && |e| == LeadLength(e[0]) && (forall k :: 0 < k < |e| ==> Continuation(e[k]))
    && (|e| > 1 ==> SecondFits(e[0], e[1]))
  }

  lemma ShortLeads(n: nat)
    requires n < 0x800
    ensures Leads(Encode(n))
  {
  }

  lemma ThreeLead(n: nat)
    requires Scalar(n) && 0x800 <= n < 0x1_0000
    ensures Leads(Encode(n))
  {
    var a, b := n / 4096, n / 64 % 64;
    assert n / 64 == a * 64 + b;
    assert a == 0 ==> b >= 32;
    assert a == 13 ==> b < 32;
  }

  lemma FourLead(n: nat)
    requires Scalar(n) && 0x1_0000 <= n
    ensures Leads(Encode(n))
  {
    var a, b := n / 262144, n / 4096 % 64;
    assert n / 4096 == a * 64 + b;
    assert a <= 4;
    assert a == 0 ==> b >= 16;
    assert a == 4 ==> b < 16;
  }

  lemma EncodedLeads(n: nat)
    requires Scalar(n)
    ensures Leads(Encode(n))
  {
    if n < 0x800 {
      ShortLeads(n);
    } else if n < 0x1_0000 {
      ThreeLead(n);
    } else {
      FourLead(n);
    }
  }

  /** The code point of the character that opens a valid text. */
  function Decode(s: string): nat
    requires s != [] && ValidUtf8(s)
  {
    var n := LeadLength(s[0]);
    if n == 1 then s[0] as nat
    else if n == 2 then (s[0] as nat - 0xC0) * 64 + Low(s[1])
    else if n == 3 then ((s[0] as nat - 0xE0) * 64 + Low(s[1])) * 64 + Low(s[2])
    else (((s[0] as nat - 0xF0) * 64 + Low(s[1])) * 64 + Low(s[2])) * 64 + Low(s[3])
  }

  function Low(c: char): nat
    requires Continuation(c)
  {
    c as nat - 0x80
  }

  lemma SixBits(a: nat, b: nat)
    requires b < 64
    ensures (a * 64 + b) / 64 == a && (a * 64 + b) % 64 == b
  {
  }

  lemma ThreeBytesDecode(s: string)
    requires s != [] && ValidUtf8(s) && LeadLength(s[0]) == 3
    ensures Scalar(Decode(s)) && Encode(Decode(s)) == s[..3]
  {
    var a, b, c := s[0] as nat - 0xE0, Low(s[1]), Low(s[2]);
    SixBits(a * 64 + b, c);
    SixBits(a, b);
    assert Decode(s) / 4096 == a;
    assert 0x800 <= Decode(s) < 0x1_0000;
  }

  lemma FourBytesDecode(s: string)
    requires s != [] && ValidUtf8(s) && LeadLength(s[0]) == 4
    ensures Scalar(Decode(s)) && Encode(Decode(s)) == s[..4]
  {
    var a, b, c, d := s[0] as nat - 0xF0, Low(s[1]), Low(s[2]), Low(s[3]);
    var high := a * 64 + b;
    SixBits(high * 64 + c, d);
    SixBits(high, c);
    SixBits(a, b);
    assert Decode(s) / 4096 == high && Decode(s) / 262144 == a;
    assert 0x1_0000 <= Decode(s) < 0x11_0000;
  }

  lemma DecodesBack(s: string)
    requires s != [] && ValidUtf8(s)
    ensures Scalar(Decode(s)) && Encode(Decode(s)) == s[..LeadLength(s[0])]
  {
    var n := LeadLength(s[0]);
    if n == 2 {
      SixBits(s[0] as nat - 0xC0, Low(s[1]));
    } else if n == 3 {
      ThreeBytesDecode(s);
    } else if n == 4 {
      FourBytesDecode(s);
    }
  }

  /** Valid text is exactly what encoding scalar values yields. */
  lemma {:induction false} EncodedIsValid(ns: seq<nat>)
    requires forall n :: n in ns ==> Scalar(n)
    ensures ValidUtf8(EncodeAll(ns))
  {
    if ns != [] {
      EncodedIsValid(ns[1..]);
      var e, s := Encode(ns[0]), EncodeAll(ns);
      EncodedLeads(ns[0]);
      assert s[|e|..] == EncodeAll(ns[1..]);
      assert forall k :: 0 <= k < |e| ==> s[k] == e[k];
    }
  }

  lemma {:induction false} ValidIsEncoded(s: string) returns (ns: seq<nat>)
    requires ValidUtf8(s)
    ensures (forall n :: n in ns ==> Scalar(n)) && s == EncodeAll(ns)
  {
    if s == [] {
      ns := [];
    } else {
      var n := LeadLength(s[0]);
      var rest := ValidIsEncoded(s[n..]);
      DecodesBack(s);
      ns := [Decode(s)] + rest;
      assert ns[1..] == rest;
      assert s == s[..n] + s[n..];
    }
  }

  // ---- The order of UTF-16 code units ----

  /** The code units of a scalar value: itself, or a surrogate pair. */
  function Units(n: nat): seq<nat>
    requires Scalar(n)
  {
    if n < 0x1_0000 then [n] else [0xD800 + (n - 0x1_0000) / 1024, 0xDC00 + (n - 0x1_0000) % 1024]
  }

  function AllUnits(ns: seq<nat>): seq<nat>
    requires forall n :: n in ns ==> Scalar(n)
  {
    if ns == [] then [] else Units(ns[0]) + AllUnits(ns[1..])
  }

  predicate Below(a: nat, b: nat) { a < b }

  /** Supplementary values come between U+D7FF and U+E000. */
  predicate Earlier(m: nat, n: nat) {
    if (m >= 0x1_0000) == (n >= 0x1_0000) then m < n
    else if m >= 0x1_0000 then n >= 0xE000
    else m < 0xD800
  }

  lemma UnitsDecide(m: nat, n: nat, x: seq<nat>, y: seq<nat>)
    requires Scalar(m) && Scalar(n) && m != n
    ensures Less(Below, Units(m) + x, Units(n) + y) <==> Earlier(m, n)
  {
    var p, q := Units(m), Units(n);
    assert (p + x)[0] == p[0] && (q + y)[0] == q[0];
    if |p| == |q| {
      LessBefore(Below, p, q, x, y);
      if |p| == 1 {
        LessOne(Below, p, q);
      } else {
        LessTwo(Below, p, q);
      }
    } else {
      LessByFirst(Below, p + x, q + y);
    }
  }

  lemma TwoBytesDecide(m: nat, n: nat)
    requires 0x80 <= m < 0x800 && 0x80 <= n < 0x800 && m != n
    ensures Encode(m) != Encode(n) && (NameLess(Encode(m), Encode(n)) <==> m < n)
  {
    LessTwo(UnitLess, Encode(m), Encode(n));
  }

  lemma DigitsNest(n: nat)
    ensures n / 64 / 64 == n / 4096
  {
  }

  lemma TopDigits(n: nat)
    ensures n / 4096 / 64 == n / 262144
  {
  }

  lemma FourDigits(n: nat)
    ensures n == n / 262144 * 262144 + n / 4096 % 64 * 4096 + n / 64 % 64 * 64 + n % 64
  {
    var high := n / 4096;
    assert n / 64 == high * 64 + n / 64 % 64 by { DigitsNest(n); }
    assert high == n / 262144 * 64 + high % 64 by { TopDigits(n); }
  }

  lemma FourDigitsDecide(a: nat, b: nat, c: nat, d: nat, e: nat, f: nat, g: nat, h: nat)
    requires b < 64 && c < 64 && d < 64 && f < 64 && g < 64 && h < 64
    ensures a * 262144 + b * 4096 + c * 64 + d < e * 262144 + f * 4096 + g * 64 + h <==>
      if a != e then a < e else if b != f then b < f else if c != g then c < g else d < h
  {
  }

  lemma ThreeDigits(n: nat)
    requires n < 0x1_0000
    ensures n == n / 4096 * 4096 + n / 64 % 64 * 64 + n % 64 && n / 4096 < 16
  {
    assert n / 64 == n / 4096 * 64 + n / 64 % 64;
  }

  lemma ThreeBytesAre(n: nat)
    requires Scalar(n) && 0x800 <= n < 0x1_0000
    ensures var e := Encode(n);
      && |e| == 3 && e[0] == (0xE0 + n / 4096) as char && Place(e[1]) == 0x80 + n / 64 % 64
      && Place(e[2]) == 0x80 + n % 64
  {
  }

  lemma LeadsAscend(a: nat, b: nat)
    requires a < 16 && b < 16
    ensures Place((0xE0 + a) as char) < Place((0xE0 + b) as char) <==> a < b
  {
  }

  lemma ThreeBytesDecide(m: nat, n: nat)
    requires Scalar(m) && Scalar(n) && 0x800 <= m < 0x1_0000 && 0x800 <= n < 0x1_0000 && m != n
    ensures Encode(m) != Encode(n) && (NameLess(Encode(m), Encode(n)) <==> m < n)
  {
    LessThree(UnitLess, Encode(m), Encode(n));
    ThreeDigits(m);
    ThreeDigits(n);
    ThreeBytesAre(m);
    ThreeBytesAre(n);
    FourDigitsDecide(0, m / 4096, m / 64 % 64, m % 64, 0, n / 4096, n / 64 % 64, n % 64);
    LeadsAscend(m / 4096, n / 4096);
  }

  lemma FourBytesAre(n: nat)
    requires Scalar(n) && 0x1_0000 <= n
    ensures var e := Encode(n);
      && |e| == 4 && Place(e[0]) == 0xEE + n / 262144 && Place(e[1]) == 0x80 + n / 4096 % 64
      && Place(e[2]) == 0x80 + n / 64 % 64 && Place(e[3]) == 0x80 + n % 64
  {
  }

  lemma FourBytesDecide(m: nat, n: nat)
    requires Scalar(m) && Scalar(n) && 0x1_0000 <= m && 0x1_0000 <= n && m != n
    ensures Encode(m) != Encode(n) && (NameLess(Encode(m), Encode(n)) <==> m < n)
  {
    var p, q := Encode(m), Encode(n);
    LessFour(UnitLess, p, q);
    FourDigits(m);
    FourDigits(n);
    FourDigitsDecide(m / 262144, m / 4096 % 64, m / 64 % 64, m % 64, n / 262144, n / 4096 % 64, n / 64 % 64, n % 64);
    FourBytesAre(m);
    FourBytesAre(n);
  }

  lemma BytesDecide(m: nat, n: nat, x: string, y: string)
    requires Scalar(m) && Scalar(n) && m != n
    ensures NameLess(Encode(m) + x, Encode(n) + y) <==> Earlier(m, n)
  {
    var p, q := Encode(m), Encode(n);
    assert (p + x)[0] == p[0] && (q + y)[0] == q[0];
    if |p| != |q| {
      LessByFirst(UnitLess, p + x, q + y);
    } else {
      if |p| == 1 {
        LessOne(UnitLess, p, q);
      } else if |p| == 2 {
        TwoBytesDecide(m, n);
      } else if |p| == 3 {
        ThreeBytesDecide(m, n);
      } else {
        FourBytesDecide(m, n);
      }
      LessBefore(UnitLess, p, q, x, y);
    }
  }

  /** The order of names on UTF-8 bytes is the order of their UTF-16 code units. */
  lemma {:induction false} NameOrderIsUtf16(ns: seq<nat>, ms: seq<nat>)
    requires (forall n :: n in ns ==> Scalar(n)) && (forall n :: n in ms ==> Scalar(n))
    ensures NameLess(EncodeAll(ns), EncodeAll(ms)) <==> Less(Below, AllUnits(ns), AllUnits(ms))
  {
    if ns != [] && ms != [] {
      if ns[0] == ms[0] {
        NameOrderIsUtf16(ns[1..], ms[1..]);
        LessAfter(UnitLess, Encode(ns[0]), EncodeAll(ns[1..]), EncodeAll(ms[1..]));
        LessAfter(Below, Units(ns[0]), AllUnits(ns[1..]), AllUnits(ms[1..]));
      } else {
        BytesDecide(ns[0], ms[0], EncodeAll(ns[1..]), EncodeAll(ms[1..]));
        UnitsDecide(ns[0], ms[0], AllUnits(ns[1..]), AllUnits(ms[1..]));
      }
    }
  }
}
