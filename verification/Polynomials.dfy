/** Words and registers as polynomials, and their values at a point: Horner's rule, the share of each
    symbol, and words that are zero at three consecutive points. Kept free of any bit width, like `Xor`. */
module Polynomials {
  import opened Xor
  import opened Iteration

  // ---- Points ----

  /** `g` is additive, takes only zero to zero, and commutes with `f`. */
  ghost predicate Scales<R(!new)>(x: (R, R) -> R, zero: R, f: R -> R, g: R -> R) {
    Additive(x, x, g) && Faithful(g, zero) && Commute(f, g)
  }

  lemma ScalesAlike<R(!new)>(x: (R, R) -> R, zero: R, f: R -> R, h: R -> R, g: R -> R)
    requires Additive(x, x, h) && h(zero) == zero && Commute(f, h)
    requires forall r {:trigger g(r)} :: g(r) == h(r)
    requires forall r {:trigger g(r)} :: g(r) == zero ==> r == zero
    ensures Scales(x, zero, f, g)
  {
  }

  lemma DotScales<R(!new)>(x: (R, R) -> R, zero: R, f: R -> R, bits: seq<bool>, g: R -> R)
    requires Exclusive(x, zero) && Additive(x, x, f) && f(zero) == zero
    requires forall r {:trigger g(r)} :: g(r) == Dot(x, zero, f, bits, r)
    requires forall r {:trigger g(r)} :: g(r) == zero ==> r == zero
    ensures Scales(x, zero, f, g)
  {
    DotCommutes(x, zero, f, bits);
    ScalesAlike(x, zero, f, r => Dot(x, zero, f, bits, r), g);
  }

  lemma ScalesNext<R(!new)>(x: (R, R) -> R, zero: R, f: R -> R, g: R -> R, h: R -> R)
    requires Additive(x, x, f) && Faithful(f, zero) && Scales(x, zero, f, g)
    requires forall r {:trigger h(r)} :: h(r) == f(g(r))
    ensures Scales(x, zero, f, h)
  {
    forall a, b ensures h(x(a, b)) == x(h(a), h(b)) {
      assert f(x(g(a), g(b))) == x(f(g(a)), f(g(b)));
    }
  }

  // ---- Words as polynomials ----

  /** The value of a word at the point `f` multiplies by, the last symbol constant. */
  function Value<R, V>(x: (R, R) -> R, zero: R, f: R -> R, lift: V -> R, e: seq<V>): R {
    if |e| == 0 then zero
    else x(Iterate(f, lift(e[0]), |e| - 1), Value(x, zero, f, lift, e[1..]))
  }

  /** Horner's rule. */
  lemma {:induction false} HornerIsValue<R(!new), V(!new)>(x: (R, R) -> R, zero: R, f: R -> R, lift: V -> R,
                                                           step: (R, V) -> R, y: R, e: seq<V>)
    requires Exclusive(x, zero) && Additive(x, x, f)
    requires forall r, v {:trigger step(r, v)} :: step(r, v) == x(f(r), lift(v))
    ensures Absorb(step, y, e) == x(Iterate(f, y, |e|), Value(x, zero, f, lift, e))
    decreases |e|
  {
    if |e| > 0 {
      var n := |e| - 1;
      HornerIsValue(x, zero, f, lift, step, step(y, e[0]), e[1..]);
      IterateIsAdditive(x, f, f(y), lift(e[0]), n);
      Splits(f, y, 1, n);
      assert Iterate(f, y, 1) == f(Iterate(f, y, 0));
      assert At(Iterate(f, f(y), n), Iterate(f, lift(e[0]), n), Value(x, zero, f, lift, e[1..]));
    }
  }

  /** A map that turns one register's step into another's turns its readings into the other's. */
  lemma {:induction false} ReadingsCorrespond<R(!new), S(!new), V(!new)>(
      step: (R, V) -> R, other: (S, V) -> S, h: R -> S, c: R, e: seq<V>)
    requires forall r, v {:trigger h(step(r, v))} :: h(step(r, v)) == other(h(r), v)
    ensures h(Absorb(step, c, e)) == Absorb(other, h(c), e)
    decreases |e|
  {
    if |e| > 0 {
      ReadingsCorrespond(step, other, h, step(c, e[0]), e[1..]);
      assert h(step(c, e[0])) == other(h(c), e[0]);
    }
  }

  /** One symbol's share of the value. */
  lemma {:induction false} ValueSplits<R(!new), V>(x: (R, R) -> R, zero: R, f: R -> R, lift: V -> R, none: V,
                                                   e: seq<V>, p: nat)
    requires Exclusive(x, zero) && Faithful(f, zero) && lift(none) == zero && p < |e|
    ensures Value(x, zero, f, lift, e) ==
      x(Iterate(f, lift(e[p]), |e| - 1 - p), Value(x, zero, f, lift, e[p := none]))
    decreases |e|
  {
    var d := e[p := none];
    var first, rest := Iterate(f, lift(e[0]), |e| - 1), Value(x, zero, f, lift, e[1..]);
    if p == 0 {
      assert d[1..] == e[1..];
      IterateIsFaithful(f, zero, zero, |e| - 1);
      assert At(zero, rest, rest) && x(rest, zero) == rest;
    } else {
      ValueSplits(x, zero, f, lift, none, e[1..], p - 1);
      assert d[1..] == e[1..][p - 1 := none];
      var share := Iterate(f, lift(e[p]), |e| - 1 - p);
      var others := Value(x, zero, f, lift, d[1..]);
      assert At(first, share, others) && At(share, first, others);
    }
  }

  lemma {:induction false} ValueOfNothing<R(!new), V>(x: (R, R) -> R, zero: R, f: R -> R, lift: V -> R, none: V,
                                                      e: seq<V>)
    requires Exclusive(x, zero) && Faithful(f, zero) && lift(none) == zero
    requires forall i :: 0 <= i < |e| ==> e[i] == none
    ensures Value(x, zero, f, lift, e) == zero
    decreases |e|
  {
    if |e| > 0 {
      ValueOfNothing(x, zero, f, lift, none, e[1..]);
      IterateIsFaithful(f, zero, zero, |e| - 1);
      assert x(zero, zero) == zero;
    }
  }

  function Share<R, V>(f: R -> R, lift: V -> R, e: seq<V>, p: nat): R
    requires p < |e|
  {
    Iterate(f, lift(e[p]), |e| - 1 - p)
  }

  lemma ValueOfOne<R(!new), V>(x: (R, R) -> R, zero: R, f: R -> R, lift: V -> R, none: V, e: seq<V>, p: nat)
    requires Exclusive(x, zero) && Faithful(f, zero) && lift(none) == zero && p < |e|
    requires forall i :: 0 <= i < |e| && i != p ==> e[i] == none
    ensures Value(x, zero, f, lift, e) == Share(f, lift, e, p)
  {
    ValueSplits(x, zero, f, lift, none, e, p);
    ValueOfNothing(x, zero, f, lift, none, e[p := none]);
  }

  lemma ValueOfTwo<R(!new), V>(x: (R, R) -> R, zero: R, f: R -> R, lift: V -> R, none: V, e: seq<V>, p: nat, q: nat)
    requires Exclusive(x, zero) && Faithful(f, zero) && lift(none) == zero && p < |e| && q < |e| && p != q
    requires forall i :: 0 <= i < |e| && i != p && i != q ==> e[i] == none
    ensures Value(x, zero, f, lift, e) == x(Share(f, lift, e, p), Share(f, lift, e, q))
  {
    var d := e[p := none];
    ValueSplits(x, zero, f, lift, none, e, p);
    ValueOfOne(x, zero, f, lift, none, d, q);
    assert Share(f, lift, d, q) == Share(f, lift, e, q);
  }

  lemma ValueOfThree<R(!new), V>(x: (R, R) -> R, zero: R, f: R -> R, lift: V -> R, none: V, e: seq<V>,
                                 p: nat, q: nat, r: nat)
    requires Exclusive(x, zero) && Faithful(f, zero) && lift(none) == zero
    requires p < |e| && q < |e| && r < |e| && p != q && p != r && q != r
    requires forall i :: 0 <= i < |e| && i != p && i != q && i != r ==> e[i] == none
    ensures Value(x, zero, f, lift, e) == x(x(Share(f, lift, e, p), Share(f, lift, e, q)), Share(f, lift, e, r))
  {
    ValueOfTwo(x, zero, f, lift, none, e[p := none], q, r);
    ValueSplits(x, zero, f, lift, none, e, p);
    var t, u, v := Share(f, lift, e, p), Share(f, lift, e, q), Share(f, lift, e, r);
    assert Value(x, zero, f, lift, e) == x(t, x(u, v));
    assert At(t, u, v);
  }

  lemma PointsFollow<R(!new)>(f: R -> R, a: R -> R, b: R -> R, c: R -> R, y: R, n: nat)
    requires Commute(f, a) && Commute(f, b)
    requires (forall r {:trigger b(r)} :: b(r) == f(a(r))) && forall r {:trigger c(r)} :: c(r) == f(b(r))
    ensures Iterate(b, y, n) == Iterate(f, Iterate(a, y, n), n)
    ensures Iterate(c, y, n) == Iterate(f, Iterate(f, Iterate(a, y, n), n), n)
  {
    ProductIterates(f, a, b, y, n);
    ProductIterates(f, b, c, y, n);
  }

  /** `a`, `b` and `c` multiply by three consecutive powers, times one factor. */
  ghost predicate Consecutive<R(!new)>(x: (R, R) -> R, zero: R, f: R -> R, a: R -> R, b: R -> R, c: R -> R) {
    && Scales(x, zero, f, a) && Scales(x, zero, f, b) && Scales(x, zero, f, c)
    && (forall y {:trigger b(y)} :: b(y) == f(a(y))) && (forall y {:trigger c(y)} :: c(y) == f(b(y)))
  }

  lemma ThreePoints<R(!new)>(x: (R, R) -> R, zero: R, f: R -> R, last: nat, a: R -> R, b: R -> R, c: R -> R,
                             t: R, u: R, v: R, l: nat, m: nat, n: nat)
    requires Exclusive(x, zero) && Additive(x, x, f) && Faithful(f, zero) && Separates(f, zero, last)
    requires Consecutive(x, zero, f, a, b, c)
    requires l <= last && m <= last && n <= last && l != m && l != n && m != n
    requires x(x(Iterate(a, t, l), Iterate(a, u, m)), Iterate(a, v, n)) == zero
    requires x(x(Iterate(b, t, l), Iterate(b, u, m)), Iterate(b, v, n)) == zero
    requires x(x(Iterate(c, t, l), Iterate(c, u, m)), Iterate(c, v, n)) == zero
    ensures t == zero && u == zero && v == zero
  {
    PointsFollow(f, a, b, c, t, l);
    PointsFollow(f, a, b, c, u, m);
    PointsFollow(f, a, b, c, v, n);
    ThreeTermsVanish(x, zero, f, last, Iterate(a, t, l), Iterate(a, u, m), Iterate(a, v, n), l, m, n);
    IterateIsFaithful(a, zero, t, l);
    IterateIsFaithful(a, zero, u, m);
    IterateIsFaithful(a, zero, v, n);
  }

  lemma SharesCancel<R(!new), V>(x: (R, R) -> R, zero: R, f: R -> R, lift: V -> R, none: V, e: seq<V>,
                                 p: nat, q: nat, r: nat, t: R, u: R, v: R, l: nat, m: nat, n: nat)
    requires Exclusive(x, zero) && Faithful(f, zero) && lift(none) == zero
    requires p < |e| && q < |e| && r < |e| && p != q && p != r && q != r
    requires forall i :: 0 <= i < |e| && i != p && i != q && i != r ==> e[i] == none
    requires Value(x, zero, f, lift, e) == zero
    requires t == lift(e[p]) && u == lift(e[q]) && v == lift(e[r])
    requires l == |e| - 1 - p && m == |e| - 1 - q && n == |e| - 1 - r
    ensures x(x(Iterate(f, t, l), Iterate(f, u, m)), Iterate(f, v, n)) == zero
  {
    ValueOfThree(x, zero, f, lift, none, e, p, q, r);
  }

  /** A word that is zero at three consecutive points and has at most three symbols other than `none`
      has no other symbol at all. */
  lemma ThreeSymbolsVanish<R(!new), V>(x: (R, R) -> R, zero: R, f: R -> R, last: nat, a: R -> R, b: R -> R, c: R -> R,
                                       lift: V -> R, none: V, e: seq<V>, p: nat, q: nat, r: nat)
    requires Exclusive(x, zero) && Additive(x, x, f) && Faithful(f, zero) && Separates(f, zero, last)
    requires Consecutive(x, zero, f, a, b, c) && lift(none) == zero
    requires |e| <= last + 1 && p < |e| && q < |e| && r < |e| && p != q && p != r && q != r
    requires forall i :: 0 <= i < |e| && i != p && i != q && i != r ==> e[i] == none
    requires Value(x, zero, a, lift, e) == zero
    requires Value(x, zero, b, lift, e) == zero
    requires Value(x, zero, c, lift, e) == zero
    ensures lift(e[p]) == zero && lift(e[q]) == zero && lift(e[r]) == zero
  {
    var t, u, v, l, m, n := lift(e[p]), lift(e[q]), lift(e[r]), |e| - 1 - p, |e| - 1 - q, |e| - 1 - r;
    SharesCancel(x, zero, a, lift, none, e, p, q, r, t, u, v, l, m, n);
    SharesCancel(x, zero, b, lift, none, e, p, q, r, t, u, v, l, m, n);
    SharesCancel(x, zero, c, lift, none, e, p, q, r, t, u, v, l, m, n);
    ThreePoints(x, zero, f, last, a, b, c, t, u, v, l, m, n);
  }

  // ---- Six coefficients ----

  /** Horner's rule on six coefficients. */
  function Six<R>(x: (R, R) -> R, f: R -> R, a: R, b: R, c: R, d: R, e: R, g: R): R {
    x(f(x(f(x(f(x(f(x(f(a), b)), c)), d)), e)), g)
  }

  function Sixth<R>(f: R -> R, a: R): R { f(f(f(f(f(f(a)))))) }

  lemma HornerAdds<R(!new)>(x: (R, R) -> R, f: R -> R, a: R, b: R, c: R, d: R)
    requires Abelian(x) && Additive(x, x, f)
    ensures x(f(x(a, b)), x(c, d)) == x(x(f(a), c), x(f(b), d))
  {
    Interchange(x, f(a), f(b), c, d);
  }

  lemma SixAdds<R(!new)>(x: (R, R) -> R, f: R -> R, a: R, b: R, c: R, d: R, e: R, g: R,
                         a': R, b': R, c': R, d': R, e': R, g': R)
    requires Abelian(x) && Additive(x, x, f)
    ensures Six(x, f, x(a, a'), x(b, b'), x(c, c'), x(d, d'), x(e, e'), x(g, g')) ==
      x(Six(x, f, a, b, c, d, e, g), Six(x, f, a', b', c', d', e', g'))
  {
    var y1, z1 := x(f(a), b), x(f(a'), b');
    HornerAdds(x, f, a, a', b, b');
    var y2, z2 := x(f(y1), c), x(f(z1), c');
    HornerAdds(x, f, y1, z1, c, c');
    var y3, z3 := x(f(y2), d), x(f(z2), d');
    HornerAdds(x, f, y2, z2, d, d');
    var y4, z4 := x(f(y3), e), x(f(z3), e');
    HornerAdds(x, f, y3, z3, e, e');
    HornerAdds(x, f, y4, z4, g, g');
  }

  /** One more coefficient pushes the leading one out. */
  lemma SixShifts<R(!new)>(x: (R, R) -> R, zero: R, f: R -> R, a: R, b: R, c: R, d: R, e: R, g: R, v: R)
    requires Exclusive(x, zero) && Additive(x, x, f) && f(zero) == zero
    ensures x(f(Six(x, f, a, b, c, d, e, g)), v) == x(Six(x, f, b, c, d, e, g, v), Sixth(f, a))
  {
    Leads(x, f, f(a), b, c);
    var y2 := x(f(b), c);
    Leads(x, f, f(f(a)), y2, d);
    var y3 := x(f(y2), d);
    Leads(x, f, f(f(f(a))), y3, e);
    var y4 := x(f(y3), e);
    Leads(x, f, f(f(f(f(a)))), y4, g);
    var y5 := x(f(y4), g);
    Leads(x, f, f(f(f(f(f(a))))), y5, v);
    assert At(Sixth(f, a), x(f(y5), v), v);
  }

  lemma Leads<R(!new)>(x: (R, R) -> R, f: R -> R, a: R, y: R, b: R)
    requires Abelian(x) && Additive(x, x, f)
    ensures x(f(x(a, y)), b) == x(f(a), x(f(y), b))
  {
    assert f(x(a, y)) == x(f(a), f(y));
    assert At(f(a), f(y), b);
  }

  /** The value of a register of six symbols: `lift` reads the last one and `drop` drops it. */
  function RegisterValue<C, R>(x: (R, R) -> R, f: R -> R, lift: C -> R, drop: C -> C, c: C): R {
    Six(x, f, lift(drop(drop(drop(drop(drop(c)))))), lift(drop(drop(drop(drop(c))))), lift(drop(drop(drop(c)))),
        lift(drop(drop(c))), lift(drop(c)), lift(c))
  }

  lemma RegisterValueAdds<C(!new), R(!new)>(xc: (C, C) -> C, x: (R, R) -> R, f: R -> R, lift: C -> R, drop: C -> C,
                                            a: C, b: C)
    requires Additive(xc, xc, drop) && Additive(xc, x, lift) && Additive(x, x, f) && Abelian(x)
    ensures RegisterValue(x, f, lift, drop, xc(a, b)) ==
      x(RegisterValue(x, f, lift, drop, a), RegisterValue(x, f, lift, drop, b))
  {
    var a1, b1 := drop(a), drop(b);
    var a2, b2 := drop(a1), drop(b1);
    var a3, b3 := drop(a2), drop(b2);
    var a4, b4 := drop(a3), drop(b3);
    SixAdds(x, f, lift(drop(a4)), lift(a4), lift(a3), lift(a2), lift(a1), lift(a),
            lift(drop(b4)), lift(b4), lift(b3), lift(b2), lift(b1), lift(b));
  }

  /** `pushed` is `c` with the symbol `v` shifted in. */
  ghost predicate Pushes<C, R>(lift: C -> R, drop: C -> C, c: C, pushed: C, v: R) {
    && lift(pushed) == v && lift(drop(pushed)) == lift(c) && lift(drop(drop(pushed))) == lift(drop(c))
    && lift(drop(drop(drop(pushed)))) == lift(drop(drop(c)))
    && lift(drop(drop(drop(drop(pushed))))) == lift(drop(drop(drop(c))))
    && lift(drop(drop(drop(drop(drop(pushed)))))) == lift(drop(drop(drop(drop(c)))))
  }

  lemma PushesAlike<C(!new), R>(lift: C -> R, drop: C -> C, same: (C, C) -> bool, c: C, pushed: C, symbol: C)
    requires forall a, b {:trigger same(a, b)} :: same(a, b) ==> lift(a) == lift(b)
    requires same(pushed, symbol) && same(drop(pushed), c) && same(drop(drop(pushed)), drop(c))
    requires same(drop(drop(drop(pushed))), drop(drop(c)))
    requires same(drop(drop(drop(drop(pushed)))), drop(drop(drop(c))))
    requires same(drop(drop(drop(drop(drop(pushed))))), drop(drop(drop(drop(c)))))
    ensures Pushes(lift, drop, c, pushed, lift(symbol))
  {
  }

  /** At a root of what is fed back, pushing a symbol in is one step of Horner's rule. */
  lemma PushIsHorner<C(!new), R(!new)>(xc: (C, C) -> C, x: (R, R) -> R, zero: R, f: R -> R, lift: C -> R, drop: C -> C,
                                       c: C, pushed: C, fed: C, v: R)
    requires Additive(xc, xc, drop) && Additive(xc, x, lift) && Additive(x, x, f) && f(zero) == zero
    requires Exclusive(x, zero) && Pushes(lift, drop, c, pushed, v)
    requires RegisterValue(x, f, lift, drop, fed) == Sixth(f, lift(drop(drop(drop(drop(drop(c)))))))
    ensures RegisterValue(x, f, lift, drop, xc(pushed, fed)) == x(f(RegisterValue(x, f, lift, drop, c)), v)
  {
    RegisterValueAdds(xc, x, f, lift, drop, pushed, fed);
    var c1 := drop(c);
    var c2 := drop(c1);
    var c3 := drop(c2);
    var c4 := drop(c3);
    SixShifts(x, zero, f, lift(drop(c4)), lift(c4), lift(c3), lift(c2), lift(c1), lift(c), v);
  }

  lemma SixthAdds<R(!new)>(x: (R, R) -> R, f: R -> R, a: R, b: R)
    requires Additive(x, x, f)
    ensures Sixth(f, x(a, b)) == x(Sixth(f, a), Sixth(f, b))
  {
    assert f(f(f(x(a, b)))) == x(f(f(f(a))), f(f(f(b))));
  }

  /** Two additive maps that agree on five parts agree on their sum. */
  lemma FiveAgree<C(!new), R(!new)>(xc: (C, C) -> C, x: (R, R) -> R, g: C -> R, h: R -> R, a: C, b: C, c: C, d: C, e: C,
                                    p: R, q: R, r: R, s: R, t: R)
    requires Additive(xc, x, g) && Additive(x, x, h)
    requires g(a) == h(p) && g(b) == h(q) && g(c) == h(r) && g(d) == h(s) && g(e) == h(t)
    ensures g(xc(xc(xc(xc(a, b), c), d), e)) == h(x(x(x(x(p, q), r), s), t))
  {
  }
}
