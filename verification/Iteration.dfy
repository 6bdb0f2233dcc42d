/** Iterating one map: commuting maps, return times, products, and why three weighted terms cannot
    cancel three times over. Kept free of any bit width, like `Xor`. */
module Iteration {
  import opened Xor

  function Iterate<R>(f: R -> R, c: R, n: nat): R {
    if n == 0 then c else f(Iterate(f, c, n - 1))
  }

  lemma {:induction false} Splits<R>(f: R -> R, c: R, m: nat, n: nat)
    ensures Iterate(f, c, m + n) == Iterate(f, Iterate(f, c, m), n)
  {
    if n > 0 {
      Splits(f, c, m, n - 1);
    }
  }

  ghost predicate Commute<R(!new)>(f: R -> R, g: R -> R) {
    forall r {:trigger g(f(r))} :: g(f(r)) == f(g(r))
  }

  lemma {:induction false} CommutesOnce<R(!new)>(f: R -> R, g: R -> R, c: R, n: nat)
    requires Commute(f, g)
    ensures g(Iterate(f, c, n)) == Iterate(f, g(c), n)
  {
    if n > 0 {
      CommutesOnce(f, g, c, n - 1);
      assert g(f(Iterate(f, c, n - 1))) == f(g(Iterate(f, c, n - 1)));
    }
  }

  lemma OrderIsFree<R>(f: R -> R, c: R, m: nat, n: nat)
    ensures Iterate(f, Iterate(f, c, m), n) == Iterate(f, Iterate(f, c, n), m)
  {
    Splits(f, c, m, n);
    Splits(f, c, n, m);
  }

  /** Iterating a product of commuting maps iterates both. */
  lemma {:induction false} ProductIterates<R(!new)>(f: R -> R, g: R -> R, h: R -> R, c: R, n: nat)
    requires Commute(f, g) && forall r {:trigger h(r)} :: h(r) == f(g(r))
    ensures Iterate(h, c, n) == Iterate(f, Iterate(g, c, n), n)
  {
    if n > 0 {
      ProductIterates(f, g, h, c, n - 1);
      CommutesOnce(f, g, Iterate(g, c, n - 1), n - 1);
    }
  }

  lemma {:induction false} IterateIsAdditive<R(!new)>(x: (R, R) -> R, f: R -> R, a: R, b: R, n: nat)
    requires Additive(x, x, f)
    ensures Iterate(f, x(a, b), n) == x(Iterate(f, a, n), Iterate(f, b, n))
  {
    if n > 0 {
      IterateIsAdditive(x, f, a, b, n - 1);
      assert f(x(Iterate(f, a, n - 1), Iterate(f, b, n - 1))) == x(Iterate(f, a, n), Iterate(f, b, n));
    }
  }

  /** Only zero is mapped to zero. */
  ghost predicate Faithful<R(!new)>(f: R -> R, zero: R) {
    forall r {:trigger f(r)} :: f(r) == zero <==> r == zero
  }

  lemma {:induction false} IterateIsFaithful<R(!new)>(f: R -> R, zero: R, c: R, n: nat)
    requires Faithful(f, zero)
    ensures Iterate(f, c, n) == zero <==> c == zero
  {
    if n > 0 {
      IterateIsFaithful(f, zero, c, n - 1);
    }
  }

  // ---- Return times ----

  predicate Returns<R(==)>(f: R -> R, c: R, n: nat) { Iterate(f, c, n) == c }

  lemma {:induction false} ReturnsTimes<R>(f: R -> R, c: R, n: nat, k: nat)
    requires Returns(f, c, n)
    ensures Returns(f, c, k * n)
  {
    if k > 0 {
      ReturnsTimes(f, c, n, k - 1);
      Splits(f, c, (k - 1) * n, n);
    }
  }

  lemma ReturnsMultiple<R>(f: R -> R, c: R, n: nat, m: nat)
    requires n > 0 && Returns(f, c, n) && m % n == 0
    ensures Returns(f, c, m)
  {
    ReturnsTimes(f, c, n, m / n);
    assert m / n * n == m;
  }

  lemma ReturnsRemainder<R>(f: R -> R, c: R, n: nat, m: nat)
    requires n > 0 && Returns(f, c, n) && Returns(f, c, m)
    ensures Returns(f, c, m % n)
  {
    ReturnsTimes(f, c, n, m / n);
    Splits(f, c, m / n * n, m % n);
    assert m / n * n + m % n == m;
  }

  /** The least return time divides all others. */
  lemma {:induction false} LeastReturn<R>(f: R -> R, c: R, d: nat) returns (g: nat)
    requires d > 0 && Returns(f, c, d)
    ensures 0 < g <= d && Returns(f, c, g)
    ensures forall m: nat {:trigger Returns(f, c, m)} :: Returns(f, c, m) ==> m % g == 0
    decreases d
  {
    if m: nat :| 0 < m < d && Returns(f, c, m) {
      g := LeastReturn(f, c, m);
    } else {
      g := d;
      forall m: nat | Returns(f, c, m) ensures m % g == 0 {
        ReturnsRemainder(f, c, g, m);
      }
    }
  }

  // ---- Exclusive or ----

  /** An exclusive or with its zero. */
  ghost predicate Exclusive<R(!new)>(x: (R, R) -> R, zero: R) {
    Abelian(x) && (forall a {:trigger x(a, a)} :: x(a, a) == zero) && forall a {:trigger x(a, zero)} :: x(a, zero) == a
  }

  lemma Cancels<R(!new)>(x: (R, R) -> R, zero: R, a: R, b: R)
    requires Exclusive(x, zero)
    ensures x(a, b) == zero <==> a == b
  {
    assert x(x(a, b), b) == x(a, x(b, b)) == x(a, zero) == a by { assert At(a, b, b); }
    assert x(zero, b) == x(b, zero) == b by { assert At(zero, b, b); }
  }

  lemma Swaps<R(!new)>(x: (R, R) -> R, zero: R, a: R, b: R, c: R, d: R)
    requires Exclusive(x, zero) && x(a, b) == x(c, d)
    ensures x(a, c) == x(b, d)
  {
    Cancels(x, zero, x(a, b), x(c, d));
    Interchange(x, a, b, c, d);
    Cancels(x, zero, x(a, c), x(b, d));
  }

  /** Eliminating the third of three terms, by an additive `f` that is its weight. */
  lemma Eliminates<R(!new)>(x: (R, R) -> R, zero: R, f: R -> R, t: R, u: R, v: R, tt: R, uu: R)
    requires Exclusive(x, zero) && f(zero) == zero
    requires f(x(x(t, u), v)) == x(x(f(t), f(u)), f(v))
    requires x(x(t, u), v) == zero && x(x(tt, uu), f(v)) == zero
    ensures x(tt, f(t)) == x(uu, f(u))
  {
    Cancels(x, zero, x(tt, uu), f(v));
    Cancels(x, zero, x(f(t), f(u)), f(v));
    Swaps(x, zero, tt, uu, f(t), f(u));
  }

  // ---- Products ----

  /** The sum of the iterates of `k` that the bits select: the product of `k` with an element, when the
      iterates of one are a basis. */
  function Dot<R>(x: (R, R) -> R, zero: R, f: R -> R, bits: seq<bool>, k: R): R {
    if |bits| == 0 then zero else x(if bits[0] then k else zero, Dot(x, zero, f, bits[1..], f(k)))
  }

  lemma DotFive<R>(x: (R, R) -> R, zero: R, f: R -> R, b: seq<bool>, k: R)
    requires |b| >= 5
    ensures Dot(x, zero, f, b, k) ==
      x(if b[0] then k else zero, x(if b[1] then f(k) else zero, x(if b[2] then f(f(k)) else zero,
        x(if b[3] then f(f(f(k))) else zero, x(if b[4] then f(f(f(f(k)))) else zero,
          Dot(x, zero, f, b[5..], f(f(f(f(f(k)))))))))))
  {
    assert b[1..][1..] == b[2..] && b[2..][1..] == b[3..] && b[3..][1..] == b[4..] && b[4..][1..] == b[5..];
    assert Dot(x, zero, f, b[2..], f(f(k))) ==
      x(if b[2] then f(f(k)) else zero, Dot(x, zero, f, b[3..], f(f(f(k)))));
    assert Dot(x, zero, f, b[4..], f(f(f(f(k))))) ==
      x(if b[4] then f(f(f(f(k)))) else zero, Dot(x, zero, f, b[5..], f(f(f(f(f(k)))))));
  }

  lemma {:induction false} DotAdds<R(!new)>(x: (R, R) -> R, zero: R, f: R -> R, bits: seq<bool>, a: R, b: R)
    requires Exclusive(x, zero) && Additive(x, x, f)
    ensures Dot(x, zero, f, bits, x(a, b)) == x(Dot(x, zero, f, bits, a), Dot(x, zero, f, bits, b))
  {
    assert x(zero, zero) == zero;
    if |bits| > 0 {
      DotAdds(x, zero, f, bits[1..], f(a), f(b));
      assert f(x(a, b)) == x(f(a), f(b));
      Interchange(x, if bits[0] then a else zero, if bits[0] then b else zero,
                  Dot(x, zero, f, bits[1..], f(a)), Dot(x, zero, f, bits[1..], f(b)));
    }
  }

  /** An additive map that commutes with `f` passes through a product. */
  lemma {:induction false} DotPasses<R(!new)>(x: (R, R) -> R, zero: R, f: R -> R, h: R -> R, bits: seq<bool>, k: R)
    requires Additive(x, x, h) && h(zero) == zero && Commute(f, h)
    ensures h(Dot(x, zero, f, bits, k)) == Dot(x, zero, f, bits, h(k))
  {
    if |bits| > 0 {
      DotPasses(x, zero, f, h, bits[1..], f(k));
      var a, b := if bits[0] then k else zero, Dot(x, zero, f, bits[1..], f(k));
      assert h(x(a, b)) == x(h(a), h(b));
      assert h(f(k)) == f(h(k));
    }
  }

  lemma DotCommutes<R(!new)>(x: (R, R) -> R, zero: R, f: R -> R, bits: seq<bool>)
    requires Exclusive(x, zero) && Additive(x, x, f) && f(zero) == zero
    ensures var h := k => Dot(x, zero, f, bits, k); Additive(x, x, h) && h(zero) == zero && Commute(f, h)
  {
    var h := k => Dot(x, zero, f, bits, k);
    forall a, b ensures h(x(a, b)) == x(h(a), h(b)) { DotAdds(x, zero, f, bits, a, b); }
    assert x(zero, zero) == zero;
    assert h(zero) == zero by {
      assert h(x(zero, zero)) == x(h(zero), h(zero));
    }
    forall r ensures h(f(r)) == f(h(r)) {
      CommuteSelf(f);
      DotPasses(x, zero, f, f, bits, r);
    }
  }

  lemma CommuteSelf<R(!new)>(f: R -> R)
    ensures Commute(f, f)
  {
  }

  lemma DotSwaps<R(!new)>(x: (R, R) -> R, zero: R, f: R -> R, a: seq<bool>, b: seq<bool>, k: R)
    requires Exclusive(x, zero) && Additive(x, x, f) && f(zero) == zero
    ensures Dot(x, zero, f, a, Dot(x, zero, f, b, k)) == Dot(x, zero, f, b, Dot(x, zero, f, a, k))
  {
    DotCommutes(x, zero, f, a);
    DotPasses(x, zero, f, r => Dot(x, zero, f, a, r), b, k);
  }

  /** Iterating from an element multiplies it by the iterate of one. */
  lemma IterateIsDot<R(!new)>(x: (R, R) -> R, zero: R, f: R -> R, bits: seq<bool>, one: R, n: nat)
    requires Exclusive(x, zero) && Additive(x, x, f) && f(zero) == zero
    ensures Iterate(f, Dot(x, zero, f, bits, one), n) == Dot(x, zero, f, bits, Iterate(f, one, n))
  {
    DotCommutes(x, zero, f, bits);
    CommutesOnce(f, r => Dot(x, zero, f, bits, r), one, n);
  }

  /** Powers of one multiply by adding exponents. */
  lemma PowersAdd<R(!new)>(x: (R, R) -> R, zero: R, f: R -> R, bits: seq<bool>, one: R, m: nat, n: nat)
    requires Exclusive(x, zero) && Additive(x, x, f) && f(zero) == zero
    requires Dot(x, zero, f, bits, one) == Iterate(f, one, m)
    ensures Iterate(f, one, m + n) == Dot(x, zero, f, bits, Iterate(f, one, n))
  {
    Splits(f, one, m, n);
    IterateIsDot(x, zero, f, bits, one, n);
  }

  /** A factor that has an inverse takes only zero to zero. */
  lemma InverseCancels<R(!new)>(x: (R, R) -> R, zero: R, f: R -> R, y: seq<bool>, k: seq<bool>, inverse: seq<bool>,
                                one: R)
    requires Exclusive(x, zero) && Additive(x, x, f) && f(zero) == zero
    requires Dot(x, zero, f, inverse, Dot(x, zero, f, k, one)) == one
    requires Dot(x, zero, f, k, Dot(x, zero, f, y, one)) == zero
    ensures Dot(x, zero, f, y, one) == zero
  {
    DotSwaps(x, zero, f, k, y, one);
    DotSwaps(x, zero, f, inverse, y, Dot(x, zero, f, k, one));
    DotCommutes(x, zero, f, inverse);
    var h := r => Dot(x, zero, f, inverse, r);
    assert h(zero) == zero;
  }

  /** No element but zero returns after `n` steps, if one more than the `n`th power has an inverse. */
  lemma NeverReturns<R(!new)>(x: (R, R) -> R, zero: R, f: R -> R, bits: seq<bool>, inverse: seq<bool>, one: R, n: nat)
    requires Exclusive(x, zero) && Additive(x, x, f) && f(zero) == zero
    requires Dot(x, zero, f, inverse, x(Iterate(f, one, n), one)) == one
    requires Returns(f, Dot(x, zero, f, bits, one), n)
    ensures Dot(x, zero, f, bits, one) == zero
  {
    var y := Dot(x, zero, f, bits, one);
    IterateIsDot(x, zero, f, bits, one, n);
    DotAdds(x, zero, f, bits, Iterate(f, one, n), one);
    assert x(y, y) == zero;
    DotSwaps(x, zero, f, inverse, bits, x(Iterate(f, one, n), one));
    DotCommutes(x, zero, f, inverse);
    var h := k => Dot(x, zero, f, inverse, k);
    assert h(zero) == zero;
  }

  // ---- Three weighted terms ----

  /** Different iterates of anything but zero differ. */
  ghost predicate Separates<R(!new)>(f: R -> R, zero: R, last: nat) {
    forall y, m: nat, n: nat {:trigger Iterate(f, y, m), Iterate(f, y, n)} ::
      m < n <= last && Iterate(f, y, m) == Iterate(f, y, n) ==> y == zero
  }

  lemma WeightsDiffer<R(!new)>(x: (R, R) -> R, zero: R, f: R -> R, last: nat, y: R, m: nat, n: nat)
    requires Exclusive(x, zero) && Separates(f, zero, last) && m <= last && n <= last && m != n
    requires x(Iterate(f, y, m), Iterate(f, y, n)) == zero
    ensures y == zero
  {
    Cancels(x, zero, Iterate(f, y, m), Iterate(f, y, n));
  }

  lemma EliminatesIterate<R(!new)>(x: (R, R) -> R, zero: R, f: R -> R, t: R, u: R, v: R, l: nat, m: nat, n: nat)
    requires Exclusive(x, zero) && Additive(x, x, f) && Faithful(f, zero)
    requires x(x(t, u), v) == zero
    requires x(x(Iterate(f, t, l), Iterate(f, u, m)), Iterate(f, v, n)) == zero
    ensures x(Iterate(f, t, l), Iterate(f, t, n)) == x(Iterate(f, u, m), Iterate(f, u, n))
  {
    IterateIsFaithful(f, zero, zero, n);
    IterateIsAdditive(x, f, x(t, u), v, n);
    IterateIsAdditive(x, f, t, u, n);
    Eliminates(x, zero, y => Iterate(f, y, n), t, u, v, Iterate(f, t, l), Iterate(f, u, m));
  }

  /** The weight of a term passes through the elimination. */
  lemma WeightPasses<R(!new)>(x: (R, R) -> R, f: R -> R, t: R, l: nat, n: nat)
    requires Additive(x, x, f)
    ensures var s := Iterate(f, t, l);
      x(Iterate(f, s, l), Iterate(f, s, n)) == Iterate(f, x(s, Iterate(f, t, n)), l)
  {
    IterateIsAdditive(x, f, Iterate(f, t, l), Iterate(f, t, n), l);
    OrderIsFree(f, t, l, n);
  }

  /** Three terms that cancel as they are, weighted once and weighted twice, with different weights,
      are all zero. */
  lemma ThreeTermsVanish<R(!new)>(x: (R, R) -> R, zero: R, f: R -> R, last: nat, t: R, u: R, v: R,
                                  l: nat, m: nat, n: nat)
    requires Exclusive(x, zero) && Additive(x, x, f) && Faithful(f, zero) && Separates(f, zero, last)
    requires l <= last && m <= last && n <= last && l != m && l != n && m != n
    requires x(x(t, u), v) == zero
    requires x(x(Iterate(f, t, l), Iterate(f, u, m)), Iterate(f, v, n)) == zero
    requires x(x(Iterate(f, Iterate(f, t, l), l), Iterate(f, Iterate(f, u, m), m)),
               Iterate(f, Iterate(f, v, n), n)) == zero
    ensures t == zero && u == zero && v == zero
  {
    var tt, uu, vv := Iterate(f, t, l), Iterate(f, u, m), Iterate(f, v, n);
    EliminatesIterate(x, zero, f, t, u, v, l, m, n);
    EliminatesIterate(x, zero, f, tt, uu, vv, l, m, n);
    WeightPasses(x, f, t, l, n);
    WeightPasses(x, f, u, m, n);
    var w := x(tt, Iterate(f, t, n));
    Cancels(x, zero, Iterate(f, w, l), Iterate(f, w, m));
    WeightsDiffer(x, zero, f, last, w, l, m);
    WeightsDiffer(x, zero, f, last, t, l, n);
    WeightsDiffer(x, zero, f, last, u, m, n);
    Cancels(x, zero, x(t, u), v);
  }

  /** Every proper divisor of `n` divides one of the three. */
  ghost predicate Settles(a: nat, b: nat, c: nat, n: nat) {
    forall g: nat {:trigger n % g} :: 0 < g < n && n % g == 0 ==> a % g == 0 || b % g == 0 || c % g == 0
  }

  /** Returning after `n` steps, but after none of three times that settle its divisors, separates
      all iterates within `n` steps. */
  lemma OrderSeparates<R(!new)>(f: R -> R, zero: R, a: nat, b: nat, c: nat, n: nat)
    requires n > 0 && Settles(a, b, c, n) && Faithful(f, zero)
    requires forall y {:trigger Returns(f, y, n)} :: Returns(f, y, n)
    requires forall y :: Returns(f, y, a) || Returns(f, y, b) || Returns(f, y, c) ==> y == zero
    ensures Separates(f, zero, n - 1)
  {
    forall y, l: nat, m: nat | l < m < n && Iterate(f, y, l) == Iterate(f, y, m) ensures y == zero {
      var z := Iterate(f, y, l);
      Splits(f, y, l, m - l);
      var g := LeastReturn(f, z, m - l);
      assert Returns(f, z, n) && n % g == 0;
      ReturnsAtOne(f, z, g, a, b, c);
      IterateIsFaithful(f, zero, y, l);
    }
  }

  lemma ReturnsAtOne<R>(f: R -> R, z: R, g: nat, a: nat, b: nat, c: nat)
    requires g > 0 && Returns(f, z, g) && (a % g == 0 || b % g == 0 || c % g == 0)
    ensures Returns(f, z, a) || Returns(f, z, b) || Returns(f, z, c)
  {
    if a % g == 0 {
      ReturnsMultiple(f, z, g, a);
    } else if b % g == 0 {
      ReturnsMultiple(f, z, g, b);
    } else {
      ReturnsMultiple(f, z, g, c);
    }
  }
}
