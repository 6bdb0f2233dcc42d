/** Total orders used by the repository: byte-wise string order, lexicographic
    tuple order, and the stable sort that `Vec::sort_by` performs. */
module Ordering {
  import opened Lists

  /** `lt` is a strict total order on `T`. */
  ghost predicate StrictTotal<T(!new)>(lt: (T, T) -> bool) {
    && (forall x :: !lt(x, x))
    && (forall x, y, z :: lt(x, y) && lt(y, z) ==> lt(x, z))
    && (forall x, y :: lt(x, y) || x == y || lt(y, x))
  }

  /** Lexicographic order on sequences; a proper prefix comes first. */
  predicate Less<T(==)>(lt: (T, T) -> bool, a: seq<T>, b: seq<T>) {
    if |b| == 0 then false
    else if |a| == 0 then true
    else if a[0] == b[0] then Less(lt, a[1..], b[1..])
    else lt(a[0], b[0])
  }

  lemma {:induction false} LessIsTransitive<T(!new)>(lt: (T, T) -> bool, a: seq<T>, b: seq<T>, c: seq<T>)
    requires StrictTotal(lt) && Less(lt, a, b) && Less(lt, b, c)
    ensures Less(lt, a, c)
  {
    if |a| > 0 && a[0] == b[0] == c[0] {
      LessIsTransitive(lt, a[1..], b[1..], c[1..]);
    }
  }

  lemma {:induction false} LessIsTotal<T(!new)>(lt: (T, T) -> bool, a: seq<T>, b: seq<T>)
    requires StrictTotal(lt)
    ensures Less(lt, a, b) || a == b || Less(lt, b, a)
    ensures a == b ==> !Less(lt, a, b)
  {
    if |a| > 0 && |b| > 0 && a[0] == b[0] {
      LessIsTotal(lt, a[1..], b[1..]);
      assert a == [a[0]] + a[1..] && b == [b[0]] + b[1..];
    }
  }

  /** Lexicographic lifting keeps strict totality. */
  lemma LexIsStrictTotal<T(!new)>(lt: (T, T) -> bool, lex: (seq<T>, seq<T>) -> bool)
    requires StrictTotal(lt)
    requires forall a, b :: lex(a, b) == Less(lt, a, b)
    ensures StrictTotal(lex)
  {
    forall a, b
      ensures lex(a, b) || a == b || lex(b, a)
      ensures a == b ==> !lex(a, b)
    {
      LessIsTotal(lt, a, b);
    }
    forall a, b, c | lex(a, b) && lex(b, c)
      ensures lex(a, c)
    {
      LessIsTransitive(lt, a, b, c);
    }
  }

  // Short sequences of one length, written out.

  lemma LessOne<T>(lt: (T, T) -> bool, a: seq<T>, b: seq<T>)
    requires |a| == |b| == 1
    ensures Less(lt, a, b) <==> a[0] != b[0] && lt(a[0], b[0])
  {
    assert |b[1..]| == 0 && !Less(lt, a[1..], b[1..]);
  }

  lemma LessTwo<T>(lt: (T, T) -> bool, a: seq<T>, b: seq<T>)
    requires |a| == |b| == 2
    ensures Less(lt, a, b) <==> if a[0] != b[0] then lt(a[0], b[0]) else a[1] != b[1] && lt(a[1], b[1])
  {
    LessOne(lt, a[1..], b[1..]);
  }

  lemma LessThree<T>(lt: (T, T) -> bool, a: seq<T>, b: seq<T>)
    requires |a| == |b| == 3
    ensures Less(lt, a, b) <==>
      if a[0] != b[0] then lt(a[0], b[0])
      else if a[1] != b[1] then lt(a[1], b[1])
      else a[2] != b[2] && lt(a[2], b[2])
  {
    LessTwo(lt, a[1..], b[1..]);
  }

  lemma LessFour<T>(lt: (T, T) -> bool, a: seq<T>, b: seq<T>)
    requires |a| == |b| == 4
    ensures Less(lt, a, b) <==>
      if a[0] != b[0] then lt(a[0], b[0])
      else if a[1] != b[1] then lt(a[1], b[1])
      else if a[2] != b[2] then lt(a[2], b[2])
      else a[3] != b[3] && lt(a[3], b[3])
  {
    LessThree(lt, a[1..], b[1..]);
  }

  /** A common beginning does not matter. */
  lemma {:induction false} LessAfter<T>(lt: (T, T) -> bool, p: seq<T>, x: seq<T>, y: seq<T>)
    ensures Less(lt, p + x, p + y) <==> Less(lt, x, y)
    decreases |p|
  {
    if |p| == 0 {
      assert p + x == x && p + y == y;
    } else {
      assert (p + x)[1..] == p[1..] + x && (p + y)[1..] == p[1..] + y;
      LessAfter(lt, p[1..], x, y);
    }
  }

  /** Different beginnings of one length decide. */
  lemma {:induction false} LessBefore<T>(lt: (T, T) -> bool, p: seq<T>, q: seq<T>, x: seq<T>, y: seq<T>)
    requires |p| == |q| && p != q
    ensures Less(lt, p + x, q + y) <==> Less(lt, p, q)
    decreases |p|
  {
    assert (p + x)[0] == p[0] && (q + y)[0] == q[0];
    if p[0] == q[0] {
      assert p == [p[0]] + p[1..] && q == [q[0]] + q[1..];
      assert (p + x)[1..] == p[1..] + x && (q + y)[1..] == q[1..] + y;
      LessBefore(lt, p[1..], q[1..], x, y);
    }
  }

  /** So do different first elements. */
  lemma LessByFirst<T>(lt: (T, T) -> bool, p: seq<T>, q: seq<T>)
    requires |p| > 0 && |q| > 0 && p[0] != q[0]
    ensures Less(lt, p, q) <==> lt(p[0], q[0])
  {
  }

  predicate CharLess(a: char, b: char) { a < b }

  /** Rust's `str` order: byte by byte. */
  predicate StringLess(a: string, b: string) { Less(CharLess, a, b) }

  lemma StringOrder()
    ensures StrictTotal(StringLess)
  {
    LexIsStrictTotal(CharLess, StringLess);
  }

  /** At `k`, where the two first differ, `a` ends or has the smaller byte. */
  predicate ComesFirst(a: string, b: string, k: nat) {
    k <= |a| && k < |b| && a[..k] == b[..k] && (k == |a| || a[k] < b[k])
  }

  lemma SharedPrefix(a: string, b: string, k: nat)
    requires 0 < k <= |a| && k <= |b| && a[..k] == b[..k]
    ensures a[0] == b[0]
  {
    assert a[0] == a[..k][0] && b[0] == b[..k][0];
  }

  lemma {:induction false} StringLessMeans(a: string, b: string)
    ensures StringLess(a, b) <==> exists k: nat :: ComesFirst(a, b, k)
    decreases |a|
  {
    if |a| > 0 && |b| > 0 && a[0] == b[0] {
      StringLessMeans(a[1..], b[1..]);
      if k: nat :| ComesFirst(a[1..], b[1..], k) {
        assert a[..k + 1] == [a[0]] + a[1..][..k] && b[..k + 1] == [b[0]] + b[1..][..k];
        assert ComesFirst(a, b, k + 1);
      }
      if k: nat :| ComesFirst(a, b, k) {
        assert k > 0;
        assert a[1..][..k - 1] == a[..k][1..] && b[1..][..k - 1] == b[..k][1..];
        assert ComesFirst(a[1..], b[1..], k - 1);
      }
    } else {
      forall k: nat | ComesFirst(a, b, k) ensures k == 0 {
        if k > 0 {
          SharedPrefix(a, b, k);
          assert false;
        }
      }
      assert StringLess(a, b) ==> ComesFirst(a, b, 0);
    }
  }

  /** One component of a sort key: a string or an integer. */
  datatype Atom = Text(text: string) | Number(number: nat)

  predicate AtomLess(a: Atom, b: Atom) {
    match (a, b)
    case (Text(s), Text(t)) => StringLess(s, t)
    case (Number(m), Number(n)) => m < n
    case (Text(_), Number(_)) => true
    case (Number(_), Text(_)) => false
  }

  /** Rust's tuple order, component by component. */
  predicate KeyLess(a: seq<Atom>, b: seq<Atom>) { Less(AtomLess, a, b) }

  lemma KeyOrder()
    ensures StrictTotal(KeyLess)
  {
    StringOrder();
    assert StrictTotal(AtomLess);
    LexIsStrictTotal(AtomLess, KeyLess);
  }

  // ---- The ascending enumeration of a finite set ----

  lemma {:induction false} HasLeast<T(!new)>(lt: (T, T) -> bool, s: set<T>)
    requires s != {} && StrictTotal(lt)
    ensures exists m :: m in s && forall x :: x in s ==> !lt(x, m)
  {
    var y :| y in s;
    var rest := s - {y};
    if rest == {} {
      assert s == {y};
    } else {
      HasLeast(lt, rest);
      var m :| m in rest && forall x :: x in rest ==> !lt(x, m);
      var least := if lt(y, m) then y else m;
      assert least in s;
      forall x | x in s ensures !lt(x, least) { if x != y { assert x in rest; } }
    }
  }

  function Least<T(!new)>(lt: (T, T) -> bool, s: set<T>): (m: T)
    requires s != {} && StrictTotal(lt)
    ensures m in s && forall x :: x in s ==> !lt(x, m)
  {
    HasLeast(lt, s);
    var m :| m in s && forall x :: x in s ==> !lt(x, m);
    m
  }

  function Ascending<T(!new)>(lt: (T, T) -> bool, s: set<T>): (list: seq<T>)
    requires StrictTotal(lt)
    ensures forall x :: x in list <==> x in s
    ensures |list| == |s|
  {
    if s == {} then [] else [Least(lt, s)] + Ascending(lt, s - {Least(lt, s)})
  }

  lemma {:induction false} AscendingAscends<T(!new)>(lt: (T, T) -> bool, s: set<T>, i: nat, j: nat)
    requires StrictTotal(lt) && i < j < |Ascending(lt, s)|
    ensures lt(Ascending(lt, s)[i], Ascending(lt, s)[j])
  {
    var rest := s - {Least(lt, s)};
    assert Ascending(lt, s)[j] == Ascending(lt, rest)[j - 1];
    if i > 0 {
      assert Ascending(lt, s)[i] == Ascending(lt, rest)[i - 1];
      AscendingAscends(lt, rest, i - 1, j - 1);
    } else {
      var k := Ascending(lt, rest)[j - 1];
      assert k in rest;
    }
  }

  /** A new least element goes first. */
  lemma LeastFirst<T(!new)>(lt: (T, T) -> bool, s: set<T>, k: T)
    requires StrictTotal(lt) && k !in s && forall j :: j in s ==> lt(k, j)
    ensures Ascending(lt, s + {k}) == [k] + Ascending(lt, s)
  {
    var t := s + {k};
    assert Least(lt, t) == k;
    assert t - {k} == s;
  }

  /** A BTreeMap's iteration order. */
  function SortedKeys(s: set<string>): (keys: seq<string>)
    ensures forall k :: k in keys <==> k in s
    ensures |keys| == |s|
  {
    StringOrder();
    Ascending(StringLess, s)
  }

  lemma SortedKeysAscend(s: set<string>, i: nat, j: nat)
    requires i < j < |SortedKeys(s)|
    ensures StringLess(SortedKeys(s)[i], SortedKeys(s)[j])
  {
    StringOrder();
    AscendingAscends(StringLess, s, i, j);
  }

  // ---- The order of member names ----

  /** A byte's place when UTF-8 text is put in the order of its UTF-16 code units: the lead bytes of
      U+E000 to U+FFFF come after those of the supplementary planes, which are surrogates in UTF-16. */
  function Place(c: char): nat {
    var n := c as nat;
    if n == 0xEE || n == 0xEF then n + 0x10 else if 0xF0 <= n <= 0xFF then n - 2 else n
  }

  predicate UnitLess(a: char, b: char) { Place(a) < Place(b) }

  /** The order of names in RFC 8785, section 3.2.3. */
  predicate NameLess(a: string, b: string) { Less(UnitLess, a, b) }

  lemma NameOrder()
    ensures StrictTotal(NameLess)
  {
    LexIsStrictTotal(UnitLess, NameLess);
  }

  function SortedNames(s: set<string>): (names: seq<string>)
    ensures forall k :: k in names <==> k in s
    ensures |names| == |s|
  {
    NameOrder();
    Ascending(NameLess, s)
  }

  lemma SortedNamesAscend(s: set<string>, i: nat, j: nat)
    requires i < j < |SortedNames(s)|
    ensures NameLess(SortedNames(s)[i], SortedNames(s)[j])
  {
    NameOrder();
    AscendingAscends(NameLess, s, i, j);
  }

  // ---- Stable sorting by a key ----

  predicate KeyLeq<T>(key: T -> seq<Atom>, a: T, b: T) { !KeyLess(key(b), key(a)) }

  /** What `is_sorted_by` tests: every adjacent pair is in order. */
  predicate Ordered<T>(key: T -> seq<Atom>, s: seq<T>) {
    forall i :: 0 < i < |s| ==> KeyLeq(key, s[i - 1], s[i])
  }

  lemma PairIsOrdered<T>(key: T -> seq<Atom>, x: T, y: T)
    ensures Ordered(key, [x, y]) <==> !KeyLess(key(y), key(x))
  {
    assert [x, y][0] == x && [x, y][1] == y;
    assert Ordered(key, [x, y]) <==> KeyLeq(key, [x, y][1 - 1], [x, y][1]);
  }

  function Insert<T>(key: T -> seq<Atom>, x: T, s: seq<T>): seq<T> {
    if |s| == 0 || KeyLeq(key, x, s[0]) then [x] + s else [s[0]] + Insert(key, x, s[1..])
  }

  /** `sort_by` on the key: stable, since an element goes before later equal ones. */
  function SortBy<T>(key: T -> seq<Atom>, s: seq<T>): seq<T> {
    if |s| == 0 then [] else Insert(key, s[0], SortBy(key, s[1..]))
  }

  lemma {:induction false} InsertKeeps<T(!new)>(key: T -> seq<Atom>, x: T, s: seq<T>)
    requires Ordered(key, s)
    ensures Ordered(key, Insert(key, x, s))
    ensures multiset(Insert(key, x, s)) == multiset{x} + multiset(s)
    ensures Insert(key, x, s)[0] in [x] + s
    ensures |s| > 0 ==> Insert(key, x, s)[0] == x || Insert(key, x, s)[0] == s[0]
  {
    KeyOrder();
    if |s| > 0 && !KeyLeq(key, x, s[0]) {
      InsertKeeps(key, x, s[1..]);
      assert s == [s[0]] + s[1..];
      var t := Insert(key, x, s[1..]);
      assert KeyLeq(key, s[0], t[0]) by {
        if |s| > 1 && t[0] == s[1] { assert KeyLeq(key, s[0], s[1]); }
      }
    }
  }

  /** Sorting yields an ordered permutation. */
  lemma {:induction false} SortByOrders<T(!new)>(key: T -> seq<Atom>, s: seq<T>)
    ensures Ordered(key, SortBy(key, s))
    ensures multiset(SortBy(key, s)) == multiset(s)
  {
    if |s| > 0 {
      SortByOrders(key, s[1..]);
      InsertKeeps(key, s[0], SortBy(key, s[1..]));
      assert s == [s[0]] + s[1..];
    }
  }

  /** The elements whose key is `k`, in order. */
  function WithKey<T>(key: T -> seq<Atom>, k: seq<Atom>, s: seq<T>): seq<T> {
    if |s| == 0 then []
    else (if key(s[0]) == k then [s[0]] else []) + WithKey(key, k, s[1..])
  }

  lemma {:induction false} WithKeyCons<T(!new)>(key: T -> seq<Atom>, k: seq<Atom>, x: T, s: seq<T>)
    ensures WithKey(key, k, [x] + s) == (if key(x) == k then [x] else []) + WithKey(key, k, s)
  {
    assert ([x] + s)[1..] == s;
  }

  lemma {:induction false} InsertIsStable<T(!new)>(key: T -> seq<Atom>, k: seq<Atom>, x: T, s: seq<T>)
    ensures WithKey(key, k, Insert(key, x, s)) == (if key(x) == k then [x] else []) + WithKey(key, k, s)
  {
    if |s| > 0 && !KeyLeq(key, x, s[0]) {
      assert key(x) != key(s[0]) by { KeyOrder(); }
      InsertIsStable(key, k, x, s[1..]);
      WithKeyCons(key, k, s[0], Insert(key, x, s[1..]));
      WithKeyCons(key, k, s[0], s[1..]);
      assert s == [s[0]] + s[1..];
    } else {
      WithKeyCons(key, k, x, s);
    }
  }

  /** Equal-key elements keep their input order. */
  lemma {:induction false} SortByIsStable<T(!new)>(key: T -> seq<Atom>, k: seq<Atom>, s: seq<T>)
    ensures WithKey(key, k, SortBy(key, s)) == WithKey(key, k, s)
  {
    if |s| > 0 {
      SortByIsStable(key, k, s[1..]);
      InsertIsStable(key, k, s[0], SortBy(key, s[1..]));
    }
  }

  lemma {:induction false} OrderedPairs<T(!new)>(key: T -> seq<Atom>, s: seq<T>, i: nat, j: nat)
    requires Ordered(key, s) && i <= j < |s|
    ensures KeyLeq(key, s[i], s[j])
    decreases j
  {
    KeyOrder();
    if i < j {
      OrderedPairs(key, s, i, j - 1);
      assert KeyLeq(key, s[j - 1], s[j]);
    }
  }

  /** Equal keys single out the element among those of `s`. */
  ghost predicate KeyDetermines<T(!new)>(key: T -> seq<Atom>, s: seq<T>) {
    forall x, y :: x in s && y in s && key(x) == key(y) ==> x == y
  }

  lemma TailCounts<T>(a: seq<T>)
    requires |a| > 0
    ensures multiset(a[1..]) == multiset(a) - multiset{a[0]} && a == [a[0]] + a[1..]
  {
    assert a == [a[0]] + a[1..];
  }

  /** Two ordered arrangements of the same elements coincide when keys single elements out. */
  lemma {:induction false} OrderedIsUnique<T(!new)>(key: T -> seq<Atom>, a: seq<T>, b: seq<T>)
    requires multiset(a) == multiset(b)
    requires Ordered(key, a) && Ordered(key, b) && KeyDetermines(key, a)
    ensures a == b
  {
    assert |a| == |multiset(a)| == |multiset(b)| == |b|;
    if |a| > 0 {
      HeadsAgree(key, a, b);
      TailCounts(a);
      TailCounts(b);
      OrderedIsUnique(key, a[1..], b[1..]);
    }
  }

  lemma HeadsAgree<T(!new)>(key: T -> seq<Atom>, a: seq<T>, b: seq<T>)
    requires multiset(a) == multiset(b) && |a| > 0 && |b| > 0
    requires Ordered(key, a) && Ordered(key, b) && KeyDetermines(key, a)
    ensures a[0] == b[0]
  {
    KeyOrder();
    assert b[0] in multiset(a) && a[0] in multiset(b);
    var i :| 0 <= i < |a| && a[i] == b[0];
    var j :| 0 <= j < |b| && b[j] == a[0];
    OrderedPairs(key, a, 0, i);
    OrderedPairs(key, b, 0, j);
  }

  /** Sorting is blind to input order exactly when keys single elements out:
      the "same inputs in any order" promise of a sorted manifest, with its condition. */
  lemma SortBlindIffKeyDetermines<T(!new)>(key: T -> seq<Atom>, s: seq<T>)
    ensures (forall t :: multiset(t) == multiset(s) ==> SortBy(key, t) == SortBy(key, s)) <==> KeyDetermines(key, s)
  {
    if KeyDetermines(key, s) {
      forall t | multiset(t) == multiset(s) ensures SortBy(key, t) == SortBy(key, s) {
        SortBlind(key, s, t);
      }
    } else {
      var x, y :| x in s && y in s && key(x) == key(y) && x != y;
      var t, u := SortSeesOrder(key, s, x, y);
    }
  }

  lemma SortBlind<T(!new)>(key: T -> seq<Atom>, s: seq<T>, t: seq<T>)
    requires multiset(t) == multiset(s) && KeyDetermines(key, s)
    ensures SortBy(key, t) == SortBy(key, s)
  {
    SortByOrders(key, s);
    SortByOrders(key, t);
    forall x, y | x in SortBy(key, s) && y in SortBy(key, s) && key(x) == key(y) ensures x == y {
      assert x in multiset(s) && y in multiset(s);
    }
    OrderedIsUnique(key, SortBy(key, s), SortBy(key, t));
  }

  lemma WithoutTakesOne<T>(s: seq<T>, i: nat)
    requires i < |s|
    ensures multiset(s) == multiset(Without(s, i)) + multiset{s[i]}
  {
    assert s == s[..i] + [s[i]] + s[i + 1..];
  }

  lemma PullOut<T>(s: seq<T>, x: T, y: T) returns (others: seq<T>)
    requires x in s && y in s && x != y
    ensures multiset(s) == multiset{x, y} + multiset(others)
  {
    var i :| 0 <= i < |s| && s[i] == x;
    WithoutTakesOne(s, i);
    var rest := Without(s, i);
    assert y in multiset(s) && y in multiset(rest);
    var j :| 0 <= j < |rest| && rest[j] == y;
    WithoutTakesOne(rest, j);
    others := Without(rest, j);
  }

  lemma SwapShows<T(!new)>(key: T -> seq<Atom>, x: T, y: T, others: seq<T>)
    requires key(x) == key(y) && x != y
    ensures SortBy(key, [x, y] + others) != SortBy(key, [y, x] + others)
  {
    var t, u := [x, y] + others, [y, x] + others;
    SortByIsStable(key, key(x), t);
    SortByIsStable(key, key(x), u);
    assert WithKey(key, key(x), t) == [x] + WithKey(key, key(x), t[1..]);
    assert WithKey(key, key(x), u) == [y] + WithKey(key, key(x), u[1..]);
    assert WithKey(key, key(x), t)[0] != WithKey(key, key(x), u)[0];
    assert WithKey(key, key(x), SortBy(key, t)) != WithKey(key, key(x), SortBy(key, u));
  }

  /** Two different elements with one key: two input orders that sort differently. */
  lemma SortSeesOrder<T(!new)>(key: T -> seq<Atom>, s: seq<T>, x: T, y: T) returns (t: seq<T>, u: seq<T>)
    requires x in s && y in s && key(x) == key(y) && x != y
    ensures multiset(t) == multiset(s) == multiset(u)
    ensures SortBy(key, t) != SortBy(key, u)
  {
    var others := PullOut(s, x, y);
    t, u := [x, y] + others, [y, x] + others;
    assert multiset(t) == multiset{x, y} + multiset(others) == multiset(u);
    SwapShows(key, x, y, others);
  }
}
