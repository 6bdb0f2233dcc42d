/** GF(2)-linear algebra over an exclusive-or operation, kept free of any bit width so that
    proofs about long registers stay algebraic. */
module Xor {

  /** Names the elements an exclusive-or law is used at, so that proofs pick its instances. */
  ghost predicate At<R>(a: R, b: R, c: R) { true }

  /** `x` is associative and commutative. */
  ghost predicate Abelian<R(!new)>(x: (R, R) -> R) {
    forall a, b, c {:trigger At(a, b, c)} :: x(a, b) == x(b, a) && x(x(a, b), c) == x(a, x(b, c))
  }

  ghost predicate Additive<A(!new), R(!new)>(xa: (A, A) -> A, x: (R, R) -> R, f: A -> R) {
    forall a, b {:trigger f(xa(a, b))} :: f(xa(a, b)) == x(f(a), f(b))
  }

  lemma Interchange<R(!new)>(x: (R, R) -> R, a: R, b: R, c: R, d: R)
    requires Abelian(x)
    ensures x(x(a, b), x(c, d)) == x(x(a, c), x(b, d))
  {
    assert At(a, b, x(c, d)) && At(b, c, d) && At(c, b, d) && At(a, c, x(b, d));
  }

  lemma SumIsAdditive<A(!new), R(!new)>(xa: (A, A) -> A, x: (R, R) -> R, f: A -> R, g: A -> R, h: A -> R)
    requires Abelian(x) && Additive(xa, x, f) && Additive(xa, x, g)
    requires forall a :: h(a) == x(f(a), g(a))
    ensures Additive(xa, x, h)
  {
    forall a, b ensures h(xa(a, b)) == x(h(a), h(b)) {
      Interchange(x, f(a), f(b), g(a), g(b));
    }
  }

  // ---- A register that absorbs symbols ----

  /** The register after reading `values` from `c`. */
  function Absorb<R, V>(step: (R, V) -> R, c: R, values: seq<V>): R
    decreases |values|
  {
    if |values| == 0 then c else Absorb(step, step(c, values[0]), values[1..])
  }

  lemma {:induction false} AbsorbAppend<R, V>(step: (R, V) -> R, c: R, a: seq<V>, b: seq<V>)
    ensures Absorb(step, c, a + b) == Absorb(step, Absorb(step, c, a), b)
    decreases |a|
  {
    if |a| == 0 {
      assert a + b == b;
    } else {
      assert (a + b)[1..] == a[1..] + b;
      AbsorbAppend(step, step(c, a[0]), a[1..], b);
    }
  }

  lemma AbsorbSix<R, V>(step: (R, V) -> R, c: R, d: seq<V>)
    requires |d| == 6
    ensures Absorb(step, c, d) == step(step(step(step(step(step(c, d[0]), d[1]), d[2]), d[3]), d[4]), d[5])
  {
    AbsorbThree(step, c, d[..3]);
    AbsorbThree(step, Absorb(step, c, d[..3]), d[3..]);
    AbsorbAppend(step, c, d[..3], d[3..]);
    assert d == d[..3] + d[3..];
  }

  lemma AbsorbThree<R, V>(step: (R, V) -> R, c: R, d: seq<V>)
    requires |d| == 3
    ensures Absorb(step, c, d) == step(step(step(c, d[0]), d[1]), d[2])
  {
    assert d[1..][1..] == d[2..] && d[2..][1..] == [];
    assert Absorb(step, step(step(c, d[0]), d[1]), d[2..]) == step(step(step(c, d[0]), d[1]), d[2]);
  }

  /** Linear in register and symbol together. */
  ghost predicate Linear<R(!new), V(!new)>(x: (R, R) -> R, xv: (V, V) -> V, step: (R, V) -> R) {
    forall c, d, v, w {:trigger step(x(c, d), xv(v, w))} :: step(x(c, d), xv(v, w)) == x(step(c, v), step(d, w))
  }

  /** Regrouping three pairs. */
  lemma InterchangeThree<R(!new)>(x: (R, R) -> R, a: R, b: R, c: R, d: R, e: R, f: R)
    requires Abelian(x)
    ensures x(x(x(a, b), x(c, d)), x(e, f)) == x(x(x(a, c), e), x(x(b, d), f))
  {
    Interchange(x, a, b, c, d);
    Interchange(x, x(a, c), x(b, d), e, f);
  }

  lemma ShiftFeedbackIsLinear<R(!new), V(!new)>(x: (R, R) -> R, xv: (V, V) -> V, shift: R -> R, extend: V -> R,
                                                feedback: R -> R, step: (R, V) -> R)
    requires Abelian(x) && Additive(x, x, shift) && Additive(xv, x, extend) && Additive(x, x, feedback)
    requires forall c, v {:trigger step(c, v)} :: step(c, v) == x(x(shift(c), extend(v)), feedback(c))
    ensures Linear(x, xv, step)
  {
    forall c, d, v, w ensures step(x(c, d), xv(v, w)) == x(step(c, v), step(d, w)) {
      InterchangeThree(x, shift(c), shift(d), extend(v), extend(w), feedback(c), feedback(d));
    }
  }

  /** Symbol-wise exclusive or. */
  function Combine<V>(xv: (V, V) -> V, a: seq<V>, b: seq<V>): (r: seq<V>)
    requires |a| == |b|
    ensures |r| == |a|
  {
    seq(|a|, i requires 0 <= i < |a| => xv(a[i], b[i]))
  }

  /** Superposition: a linear register reads a combined word as the combination of its readings. */
  lemma {:induction false} AbsorbIsLinear<R(!new), V(!new)>(
      x: (R, R) -> R, xv: (V, V) -> V, step: (R, V) -> R, c: R, d: R, a: seq<V>, b: seq<V>)
    requires Linear(x, xv, step) && |a| == |b|
    ensures Absorb(step, x(c, d), Combine(xv, a, b)) == x(Absorb(step, c, a), Absorb(step, d, b))
    decreases |a|
  {
    if |a| > 0 {
      AbsorbIsLinear(x, xv, step, step(c, a[0]), step(d, b[0]), a[1..], b[1..]);
      assert Combine(xv, a, b)[1..] == Combine(xv, a[1..], b[1..]);
    }
  }

  /** A word that reads as `pm` from zero moves the reading of `zeros` by `pm`. */
  lemma Steer<R(!new), V(!new)>(x: (R, R) -> R, xv: (V, V) -> V, step: (R, V) -> R, c: R, zero: R,
                                zeros: seq<V>, word: seq<V>)
    requires Linear(x, xv, step) && |zeros| == |word| && x(c, zero) == c && Combine(xv, zeros, word) == word
    ensures Absorb(step, c, word) == x(Absorb(step, c, zeros), Absorb(step, zero, word))
  {
    AbsorbIsLinear(x, xv, step, c, zero, zeros, word);
  }

  /** A tail that steers every register in range to `target` does so after any prefix. */
  lemma SteerAfterPrefix<R(!new), V(!new)>(step: (R, V) -> R, tail: R -> seq<V>, start: R, prefix: seq<V>,
                                           zeros: seq<V>, target: R)
    requires var c := Absorb(step, start, prefix); Absorb(step, c, tail(Absorb(step, c, zeros))) == target
    ensures Absorb(step, start, prefix + tail(Absorb(step, start, prefix + zeros))) == target
  {
    AbsorbAppend(step, start, prefix, zeros);
    AbsorbAppend(step, start, prefix, tail(Absorb(step, start, prefix + zeros)));
  }

  /** A property of register and free room that every step keeps holds to the end of a word that is
      zero once the room is used up. */
  lemma {:induction false} Endures<R(!new), V(!new)>(step: (R, V) -> R, fits: (R, nat) -> bool, zero: V, c: R,
                                                     e: seq<V>, room: nat) returns (left: nat)
    requires forall r, v, n: nat {:trigger fits(r, n), step(r, v)} :: n > 0 && fits(r, n) ==> fits(step(r, v), n - 1)
    requires forall r {:trigger step(r, zero)} :: fits(r, 0) ==> fits(step(r, zero), 0)
    requires fits(c, room) && forall i :: room <= i < |e| ==> e[i] == zero
    ensures fits(Absorb(step, c, e), left)
    decreases |e|
  {
    if |e| == 0 {
      left := room;
    } else {
      left := Endures(step, fits, zero, step(c, e[0]), e[1..], if room == 0 then 0 else room - 1);
    }
  }

  /** A run of the register, state by state. */
  lemma {:induction false} AbsorbTrace<S(!new), V(!new)>(step: (S, V) -> S, values: seq<V>, states: seq<S>)
    requires |states| == |values| + 1
    requires forall i :: 0 <= i < |values| ==> step(states[i], values[i]) == states[i + 1]
    ensures Absorb(step, states[0], values) == states[|values|]
    decreases |values|
  {
    if |values| > 0 {
      forall i | 0 <= i < |values[1..]| ensures step(states[1..][i], values[1..][i]) == states[1..][i + 1] {
        assert step(states[i + 1], values[i + 1]) == states[i + 2];
      }
      AbsorbTrace(step, values[1..], states[1..]);
    }
  }
}
