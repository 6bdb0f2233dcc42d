/** Sequences with pairwise distinct keys, removal of one element, and sums. */
module Lists {

  predicate DistinctBy<T, K(==)>(key: T -> K, s: seq<T>) {
    forall i, j :: 0 <= i < j < |s| ==> key(s[i]) != key(s[j])
  }

  function KeysOf<T, K>(key: T -> K, s: seq<T>): set<K> {
    set i | 0 <= i < |s| :: key(s[i])
  }

  lemma KeysOfCons<T, K>(key: T -> K, s: seq<T>)
    requires |s| > 0
    ensures KeysOf(key, s) == {key(s[0])} + KeysOf(key, s[1..])
  {
    assert forall i :: 0 < i < |s| ==> s[i] == s[1..][i - 1];
    forall k | k in KeysOf(key, s[1..]) ensures k in KeysOf(key, s) {
      var i :| 0 <= i < |s[1..]| && key(s[1..][i]) == k;
      assert s[i + 1] == s[1..][i];
    }
  }

  lemma KeysOfSnoc<T, K>(key: T -> K, s: seq<T>, i: nat)
    requires i < |s|
    ensures KeysOf(key, s[..i + 1]) == KeysOf(key, s[..i]) + {key(s[i])}
  {
    forall k | k in KeysOf(key, s[..i]) + {key(s[i])} ensures k in KeysOf(key, s[..i + 1]) {
      if k in KeysOf(key, s[..i]) {
        var j :| 0 <= j < i && key(s[..i][j]) == k;
        assert s[..i + 1][j] == s[..i][j];
      } else {
        assert s[..i + 1][i] == s[i];
      }
    }
  }

  /** The tail is distinct and does not repeat the head's key. */
  lemma DistinctByCons<T, K>(key: T -> K, s: seq<T>)
    requires |s| > 0
    ensures DistinctBy(key, s) <==> DistinctBy(key, s[1..]) && key(s[0]) !in KeysOf(key, s[1..])
  {
    assert forall i :: 0 < i < |s| ==> s[i] == s[1..][i - 1];
    if DistinctBy(key, s) {
      forall i, j | 0 <= i < j < |s[1..]| ensures key(s[1..][i]) != key(s[1..][j]) {
        assert s[1..][i] == s[i + 1] && s[1..][j] == s[j + 1];
      }
      forall i | 0 <= i < |s[1..]| ensures key(s[1..][i]) != key(s[0]) {
        assert s[1..][i] == s[i + 1];
      }
    }
  }

  /** The same, taking the last element away. */
  lemma DistinctBySnoc<T, K>(key: T -> K, s: seq<T>)
    requires |s| > 0
    ensures DistinctBy(key, s) <==> DistinctBy(key, s[..|s| - 1]) && key(s[|s| - 1]) !in KeysOf(key, s[..|s| - 1])
  {
    var n := |s| - 1;
    assert forall i :: 0 <= i < n ==> s[..n][i] == s[i];
    if DistinctBy(key, s[..n]) && key(s[n]) !in KeysOf(key, s[..n]) {
      forall i, j | 0 <= i < j < |s| ensures key(s[i]) != key(s[j]) {
        assert key(s[..n][i]) in KeysOf(key, s[..n]);
      }
    }
  }

  lemma {:induction false} DistinctKeysCount<T, K>(key: T -> K, s: seq<T>)
    requires DistinctBy(key, s)
    ensures |KeysOf(key, s)| == |s|
  {
    if |s| > 0 {
      DistinctByCons(key, s);
      KeysOfCons(key, s);
      DistinctKeysCount(key, s[1..]);
    }
  }

  /** Distinctness does not depend on the order of the elements. */
  lemma KeyIsAmong<T(!new), K(!new)>(key: T -> K, k: K, s: seq<T>)
    ensures k in KeysOf(key, s) <==> exists x :: x in s && key(x) == k
  {
    if k in KeysOf(key, s) {
      var i :| 0 <= i < |s| && key(s[i]) == k;
      assert s[i] in s;
    }
  }

  lemma {:induction false} DistinctMeans<T(!new), K(!new)>(key: T -> K, s: seq<T>)
    ensures DistinctBy(key, s) <==>
      (forall x :: x in s ==> multiset(s)[x] == 1) && (forall x, y :: x in s && y in s && key(x) == key(y) ==> x == y)
  {
    if |s| > 0 {
      DistinctByCons(key, s);
      DistinctMeans(key, s[1..]);
      assert s == [s[0]] + s[1..];
      assert forall x :: multiset(s)[x] == multiset(s[1..])[x] + if x == s[0] then 1 else 0;
      assert forall x :: x in s <==> x == s[0] || x in s[1..];
      KeyIsAmong(key, key(s[0]), s[1..]);
    }
  }

  lemma PermutedDistinct<T(!new), K(!new)>(key: T -> K, s: seq<T>, t: seq<T>)
    requires multiset(s) == multiset(t)
    ensures DistinctBy(key, s) <==> DistinctBy(key, t)
  {
    DistinctMeans(key, s);
    DistinctMeans(key, t);
    assert forall x :: x in s <==> x in multiset(s);
    assert forall x :: x in t <==> x in multiset(t);
  }

  function Without<T>(s: seq<T>, i: nat): (r: seq<T>)
    requires i < |s|
    ensures |r| == |s| - 1
  {
    s[..i] + s[i + 1..]
  }

  lemma KeysOfWithout<T, K>(key: T -> K, s: seq<T>, i: nat)
    requires i < |s| && DistinctBy(key, s)
    ensures DistinctBy(key, Without(s, i)) && KeysOf(key, Without(s, i)) == KeysOf(key, s) - {key(s[i])}
    ensures forall x :: x in Without(s, i) ==> x in s
  {
    var r := Without(s, i);
    assert forall j :: 0 <= j < |r| ==> r[j] == s[if j < i then j else j + 1];
    forall k | k in KeysOf(key, s) - {key(s[i])} ensures k in KeysOf(key, r) {
      var j :| 0 <= j < |s| && key(s[j]) == k;
      assert r[if j < i then j else j - 1] == s[j];
    }
  }

  function Sum<T>(size: T -> nat, s: seq<T>): nat {
    if |s| == 0 then 0 else size(s[0]) + Sum(size, s[1..])
  }

  lemma {:induction false} SumSplits<T>(size: T -> nat, s: seq<T>, i: nat)
    requires i <= |s|
    ensures Sum(size, s) == Sum(size, s[..i]) + Sum(size, s[i..])
  {
    if i > 0 {
      SumSplits(size, s[1..], i - 1);
      assert s[..i][1..] == s[1..][..i - 1];
    } else {
      assert s[0..] == s;
    }
  }

  lemma SumSnoc<T>(size: T -> nat, s: seq<T>, i: nat)
    requires i < |s|
    ensures Sum(size, s[..i + 1]) == Sum(size, s[..i]) + size(s[i])
  {
    SumSplits(size, s[..i + 1], i);
    assert s[..i + 1][..i] == s[..i] && s[..i + 1][i..] == [s[i]];
  }

  lemma {:induction false} SumWithout<T>(size: T -> nat, s: seq<T>, i: nat)
    requires i < |s|
    ensures Sum(size, s) == size(s[i]) + Sum(size, Without(s, i))
  {
    if i > 0 {
      SumWithout(size, s[1..], i - 1);
      assert Without(s, i)[1..] == Without(s[1..], i - 1);
    } else {
      assert Without(s, 0) == s[1..];
    }
  }

  /** Sums agree when keys match the two sides up and matched elements have one size. */
  lemma {:induction false} MatchedSums<T(!new), U(!new), K>(
      k: T -> K, l: U -> K, a: seq<T>, b: seq<U>, f: T -> nat, g: U -> nat)
    requires DistinctBy(k, a) && DistinctBy(l, b) && KeysOf(k, a) == KeysOf(l, b)
    requires forall x, y :: x in a && y in b && k(x) == l(y) ==> f(x) == g(y)
    ensures Sum(f, a) == Sum(g, b)
    decreases |a|
  {
    DistinctKeysCount(k, a);
    DistinctKeysCount(l, b);
    if |a| > 0 {
      assert k(a[0]) in KeysOf(l, b);
      var j :| 0 <= j < |b| && l(b[j]) == k(a[0]);
      KeysOfWithout(k, a, 0);
      KeysOfWithout(l, b, j);
      assert Without(a, 0) == a[1..];
      MatchedSums(k, l, a[1..], Without(b, j), f, g);
      SumWithout(g, b, j);
    }
  }
}
