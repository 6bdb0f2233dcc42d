/** Scattered errors: three substitutions anywhere in a string.

    A register is a polynomial over the field of 32 elements, read modulo the checksum's generator
    polynomial, and that polynomial is zero at three consecutive powers of a generator of the field of
    1024 elements. So the value of the string at those three points can be read off the register, and
    a nonzero difference in at most three symbols cannot be zero at all three. */
module Substitutions {
  import opened Xor
  import opened Iteration
  import opened Polynomials
  import opened Field
  import opened Bech32m

  // ---- Symbols as field elements ----

  /** The element that the low five bits stand for. */
  function Lift(c: bv32): bv10 {
    Xor10(Xor10(Xor10(Xor10(Pick(c & 1 != 0, 1), Pick(c & 2 != 0, 0x14d)), Pick(c & 4 != 0, 0x283)),
          Pick(c & 8 != 0, 0x267)), Pick(c & 16 != 0, 0x122))
  }

  function LiftSymbol(v: bv5): bv10 { Lift(Extend(v)) }

  lemma {:induction false} LowBitsDecide(c: bv32, d: bv32)
    requires c & 31 == d & 31
    ensures c & 1 == d & 1 && c & 2 == d & 2 && c & 4 == d & 4 && c & 8 == d & 8 && c & 16 == d & 16
  {
  }

  lemma LiftReadsLowBits(c: bv32, d: bv32)
    requires c & 31 == d & 31
    ensures Lift(c) == Lift(d)
  {
    LowBitsDecide(c, d);
  }

  lemma {:induction false} PickAdds(p: bool, q: bool, k: bv10)
    ensures Pick(p != q, k) == Xor10(Pick(p, k), Pick(q, k))
  {
  }

  lemma LiftAdds(c: bv32, d: bv32)
    ensures Lift(Xor32(c, d)) == Xor10(Lift(c), Lift(d))
  {
    MasksAreAdditive(c, d);
    Xor10IsAbelian();
    PickAdds(c & 1 != 0, d & 1 != 0, 1);
    PickAdds(c & 2 != 0, d & 2 != 0, 0x14d);
    PickAdds(c & 4 != 0, d & 4 != 0, 0x283);
    PickAdds(c & 8 != 0, d & 8 != 0, 0x267);
    PickAdds(c & 16 != 0, d & 16 != 0, 0x122);
    SumOfFive(Xor10, Pick(c & 1 != 0, 1), Pick(c & 2 != 0, 0x14d), Pick(c & 4 != 0, 0x283), Pick(c & 8 != 0, 0x267),
              Pick(c & 16 != 0, 0x122), Pick(d & 1 != 0, 1), Pick(d & 2 != 0, 0x14d), Pick(d & 4 != 0, 0x283),
              Pick(d & 8 != 0, 0x267), Pick(d & 16 != 0, 0x122));
  }

  lemma SumOfFive<R(!new)>(x: (R, R) -> R, a: R, b: R, c: R, d: R, e: R, a': R, b': R, c': R, d': R, e': R)
    requires Abelian(x)
    ensures x(x(x(x(x(a, a'), x(b, b')), x(c, c')), x(d, d')), x(e, e')) ==
      x(x(x(x(x(a, b), c), d), e), x(x(x(x(a', b'), c'), d'), e'))
  {
    Interchange(x, a, a', b, b');
    Interchange(x, x(a, b), x(a', b'), c, c');
    Interchange(x, x(x(a, b), c), x(x(a', b'), c'), d, d');
    Interchange(x, x(x(x(a, b), c), d), x(x(x(a', b'), c'), d'), e, e');
  }

  // ---- The value of a register ----

  function Drop(c: bv32): bv32 { c >> 5 }

  /** The register's value at the point `f` multiplies by. */
  function ValueOf(f: bv10 -> bv10, c: bv32): bv10 { RegisterValue(Xor10, f, Lift, Drop, c) }

  lemma {:induction false} DropAdds(a: bv32, b: bv32)
    ensures (a ^ b) >> 5 == (a >> 5) ^ (b >> 5)
  {
  }

  lemma SymbolsAdd()
    ensures Additive(Xor32, Xor32, Drop) && Additive(Xor32, Xor10, Lift)
  {
    forall a, b ensures Drop(Xor32(a, b)) == Xor32(Drop(a), Drop(b)) { DropAdds(a, b); }
    forall a, b ensures Lift(Xor32(a, b)) == Xor10(Lift(a), Lift(b)) { LiftAdds(a, b); }
  }

  /** The register with a symbol shifted in, before the feedback. */
  function Pushed(c: bv32, v: bv5): bv32 { Xor32(Shift(c), Extend(v)) }

  predicate SameSymbol(c: bv32, d: bv32) { c & 31 == d & 31 }

  lemma {:induction false} DropsAre(c: bv32)
    ensures Drop(Drop(c)) == c >> 10 && Drop(Drop(Drop(c))) == c >> 15
    ensures Drop(Drop(Drop(Drop(c)))) == c >> 20 && Drop(Drop(Drop(Drop(Drop(c))))) == c >> 25
  {
  }

  lemma {:induction false} PushedSymbols(c: bv32, v: bv5)
    ensures SameSymbol(Pushed(c, v), Extend(v)) && SameSymbol(Pushed(c, v) >> 5, c)
    ensures SameSymbol(Pushed(c, v) >> 10, c >> 5) && SameSymbol(Pushed(c, v) >> 15, c >> 10)
    ensures SameSymbol(Pushed(c, v) >> 20, c >> 15) && SameSymbol(Pushed(c, v) >> 25, c >> 20)
  {
  }

  lemma DroppedSymbols(c: bv32, v: bv5, p: bv32)
    requires p == Pushed(c, v)
    ensures SameSymbol(p, Extend(v)) && SameSymbol(Drop(p), c) && SameSymbol(Drop(Drop(p)), Drop(c))
    ensures SameSymbol(Drop(Drop(Drop(p))), Drop(Drop(c)))
    ensures SameSymbol(Drop(Drop(Drop(Drop(p)))), Drop(Drop(Drop(c))))
    ensures SameSymbol(Drop(Drop(Drop(Drop(Drop(p))))), Drop(Drop(Drop(Drop(c)))))
  {
    DropsAre(c);
    DropsAre(p);
    PushedSymbols(c, v);
  }

  lemma LiftPushes(c: bv32, v: bv5)
    ensures Pushes(Lift, Drop, c, Pushed(c, v), LiftSymbol(v))
  {
    forall c, d | SameSymbol(c, d) ensures Lift(c) == Lift(d) { LiftReadsLowBits(c, d); }
    DroppedSymbols(c, v, Pushed(c, v));
    PushesAlike(Lift, Drop, SameSymbol, c, Pushed(c, v), Extend(v));
  }

  function ValueAt(f: bv10 -> bv10): bv32 -> bv10 { c => ValueOf(f, c) }

  function SixthOf(f: bv10 -> bv10): bv10 -> bv10 { y => Sixth(f, y) }

  /** What is fed back is worth, under `g`, what left is worth under `h`. */
  ghost predicate Feeds(g: bv32 -> bv10, h: bv10 -> bv10) {
    forall t {:trigger Taps5(t)} :: g(Taps5(t)) == h(Lift(t))
  }

  /** `f` multiplies by a root of the generator polynomial. */
  ghost predicate IsRoot(f: bv10 -> bv10) { Feeds(ValueAt(f), SixthOf(f)) }

  /** At a root, reading a symbol is one step of Horner's rule. */
  lemma ValueOfStep(f: bv10 -> bv10, c: bv32, v: bv5)
    requires Scales(Xor10, 0, Alpha, f) && IsRoot(f)
    ensures ValueOf(f, Step(c, v)) == Xor10(f(ValueOf(f, c)), LiftSymbol(v))
  {
    Xor10IsExclusive();
    SymbolsAdd();
    LiftPushes(c, v);
    DropsAre(c);
    assert ValueAt(f)(Taps5(c >> 25)) == SixthOf(f)(Lift(c >> 25));
    PushIsHorner(Xor32, Xor10, 0, f, Lift, Drop, c, Pushed(c, v), Feedback(c), LiftSymbol(v));
  }

  // ---- The three roots ----

  /** The generator words, symbol by symbol, are worth what the bits that select them are worth six
      places up. */
  ghost predicate Balances(f: bv10 -> bv10) { BalancesLow(f) && BalancesHigh(f) }

  ghost predicate BalancesLow(f: bv10 -> bv10) {
    && Six(Xor10, f, 0x1c7, 0x2ec, 0x3a1, 0x3a0, 0x1c7, 0x6f) == Sixth(f, 1)
    && Six(Xor10, f, 0x6e, 0x282, 1, 0x14c, 0x6e, 0xe5) == Sixth(f, 0x14d)
    && Six(Xor10, f, 0x1a8, 0x32a, 0x14d, 0x3ce, 0x1a8, 0x208) == Sixth(f, 0x283)
  }

  ghost predicate BalancesHigh(f: bv10 -> bv10) {
    && Six(Xor10, f, 0x8b, 0x3a1, 0x283, 0xe4, 0x8b, 0x1c7) == Sixth(f, 0x267)
    && Six(Xor10, f, 0x3a0, 1, 0x267, 0x345, 0x3a0, 0x6e) == Sixth(f, 0x122)
  }

  lemma {:induction false} RootBalancesLow()
    ensures BalancesLow(Root)
  {
  }

  lemma {:induction false} RootBalancesHigh()
    ensures BalancesHigh(Root)
  {
  }

  lemma {:induction false} NextRootBalancesLow()
    ensures BalancesLow(NextRoot)
  {
  }

  lemma {:induction false} NextRootBalancesHigh()
    ensures BalancesHigh(NextRoot)
  {
  }

  lemma {:induction false} LastRootBalancesLow()
    ensures BalancesLow(LastRoot)
  {
  }

  lemma {:induction false} LastRootBalancesHigh()
    ensures BalancesHigh(LastRoot)
  {
  }

  lemma {:induction false} GeneratorWords(f: bv10 -> bv10)
    ensures ValueOf(f, 0x3b6a_57b2) == Six(Xor10, f, 0x1c7, 0x2ec, 0x3a1, 0x3a0, 0x1c7, 0x6f)
    ensures ValueOf(f, 0x2650_8e6d) == Six(Xor10, f, 0x6e, 0x282, 1, 0x14c, 0x6e, 0xe5)
    ensures ValueOf(f, 0x1ea1_19fa) == Six(Xor10, f, 0x1a8, 0x32a, 0x14d, 0x3ce, 0x1a8, 0x208)
    ensures ValueOf(f, 0x3d42_33dd) == Six(Xor10, f, 0x8b, 0x3a1, 0x283, 0xe4, 0x8b, 0x1c7)
    ensures ValueOf(f, 0x2a14_62b3) == Six(Xor10, f, 0x3a0, 1, 0x267, 0x345, 0x3a0, 0x6e)
  {
  }

  lemma {:induction false} LiftOfZero()
    ensures Lift(0) == 0 && Drop(0) == 0
  {
  }

  lemma ZeroIsWorthNothing(f: bv10 -> bv10)
    requires f(0) == 0
    ensures ValueOf(f, 0) == 0 && Sixth(f, 0) == 0
  {
    LiftOfZero();
    Xor10Laws(0, 0, 0);
  }

  lemma ValuesAdd(f: bv10 -> bv10)
    requires Additive(Xor10, Xor10, f)
    ensures Additive(Xor32, Xor10, ValueAt(f)) && Additive(Xor10, Xor10, SixthOf(f))
  {
    Xor10IsAbelian();
    SymbolsAdd();
    forall a, b ensures ValueOf(f, Xor32(a, b)) == Xor10(ValueOf(f, a), ValueOf(f, b)) {
      RegisterValueAdds(Xor32, Xor10, f, Lift, Drop, a, b);
    }
    forall a, b ensures Sixth(f, Xor10(a, b)) == Xor10(Sixth(f, a), Sixth(f, b)) { SixthAdds(Xor10, f, a, b); }
  }

  /** The maps agree on zero and on the five generator words and their bits. */
  ghost predicate Matches(g: bv32 -> bv10, h: bv10 -> bv10) {
    && g(0) == h(0) && g(0x3b6a_57b2) == h(1) && g(0x2650_8e6d) == h(0x14d) && g(0x1ea1_19fa) == h(0x283)
    && g(0x3d42_33dd) == h(0x267) && g(0x2a14_62b3) == h(0x122)
  }

  lemma TapsAgree(g: bv32 -> bv10, h: bv10 -> bv10, t: bv32)
    requires Additive(Xor32, Xor10, g) && Additive(Xor10, Xor10, h) && Matches(g, h)
    ensures g(Taps5(t)) == h(Lift(t))
  {
    FiveAgree(Xor32, Xor10, g, h, Tap0(t), Tap1(t), Tap2(t), Tap3(t), Tap4(t),
              Pick(t & 1 != 0, 1), Pick(t & 2 != 0, 0x14d), Pick(t & 4 != 0, 0x283), Pick(t & 8 != 0, 0x267),
              Pick(t & 16 != 0, 0x122));
  }

  lemma MatchFeeds(g: bv32 -> bv10, h: bv10 -> bv10)
    requires Additive(Xor32, Xor10, g) && Additive(Xor10, Xor10, h) && Matches(g, h)
    ensures Feeds(g, h)
  {
    forall t ensures g(Taps5(t)) == h(Lift(t)) { TapsAgree(g, h, t); }
  }

  lemma BalanceMatches(f: bv10 -> bv10)
    requires f(0) == 0 && Balances(f)
    ensures Matches(ValueAt(f), SixthOf(f))
  {
    ZeroIsWorthNothing(f);
    GeneratorWords(f);
  }

  lemma BalanceMakesRoot(f: bv10 -> bv10)
    requires Additive(Xor10, Xor10, f) && f(0) == 0 && Balances(f)
    ensures IsRoot(f)
  {
    ValuesAdd(f);
    BalanceMatches(f);
    MatchFeeds(ValueAt(f), SixthOf(f));
  }

  lemma RootIsRoot()
    ensures IsRoot(Root)
  {
    RootsScale();
    RootBalancesLow();
    RootBalancesHigh();
    BalanceMakesRoot(Root);
  }

  lemma NextRootIsRoot()
    ensures IsRoot(NextRoot)
  {
    RootsScale();
    NextRootBalancesLow();
    NextRootBalancesHigh();
    BalanceMakesRoot(NextRoot);
  }

  lemma LastRootIsRoot()
    ensures IsRoot(LastRoot)
  {
    RootsScale();
    LastRootBalancesLow();
    LastRootBalancesHigh();
    BalanceMakesRoot(LastRoot);
  }

  // ---- Reading a string ----

  function HornerStep(f: bv10 -> bv10): (bv10, bv5) -> bv10 { (y, v) => Xor10(f(y), LiftSymbol(v)) }

  lemma StepsCorrespond(f: bv10 -> bv10)
    requires Scales(Xor10, 0, Alpha, f) && IsRoot(f)
    ensures forall c, v {:trigger Step(c, v)} :: ValueAt(f)(Step(c, v)) == HornerStep(f)(ValueAt(f)(c), v)
  {
    forall c, v ensures ValueAt(f)(Step(c, v)) == HornerStep(f)(ValueAt(f)(c), v) { ValueOfStep(f, c, v); }
  }

  lemma HornerFromZero(f: bv10 -> bv10, e: seq<bv5>)
    requires Scales(Xor10, 0, Alpha, f)
    ensures Absorb(HornerStep(f), 0, e) == Value(Xor10, 0, f, LiftSymbol, e)
  {
    Xor10IsExclusive();
    HornerIsValue(Xor10, 0, f, LiftSymbol, HornerStep(f), 0, e);
    IterateIsFaithful(f, 0, 0, |e|);
    Xor10Laws(0, Value(Xor10, 0, f, LiftSymbol, e), 0);
    Xor10Laws(Value(Xor10, 0, f, LiftSymbol, e), 0, 0);
  }

  /** At a root, the value of what a string leaves in the register is the value of the string. */
  lemma ReadingKeepsValue(f: bv10 -> bv10, e: seq<bv5>)
    requires Scales(Xor10, 0, Alpha, f) && IsRoot(f)
    ensures ValueOf(f, Absorb(Step, 0, e)) == Value(Xor10, 0, f, LiftSymbol, e)
  {
    StepsCorrespond(f);
    ReadingsCorrespond(Step, HornerStep(f), ValueAt(f), 0, e);
    ZeroIsWorthNothing(f);
    HornerFromZero(f, e);
  }

  lemma TracelessIsZeroAtRoot(f: bv10 -> bv10, e: seq<bv5>)
    requires Scales(Xor10, 0, Alpha, f) && IsRoot(f) && Absorb(Step, 0, e) == 0
    ensures Value(Xor10, 0, f, LiftSymbol, e) == 0
  {
    ReadingKeepsValue(f, e);
    ZeroIsWorthNothing(f);
  }

  lemma {:induction false} LiftSymbolOfZero(v: bv5)
    ensures LiftSymbol(v) == 0 <==> v == 0
  {
  }

  lemma RootsAreConsecutive()
    ensures Consecutive(Xor10, 0, Alpha, Root, NextRoot, LastRoot)
  {
    RootsScale();
  }

  lemma ZeroAtTheRoots(e: seq<bv5>)
    requires Absorb(Step, 0, e) == 0
    ensures Value(Xor10, 0, Root, LiftSymbol, e) == 0
    ensures Value(Xor10, 0, NextRoot, LiftSymbol, e) == 0
    ensures Value(Xor10, 0, LastRoot, LiftSymbol, e) == 0
  {
    RootsScale();
    RootIsRoot();
    TracelessIsZeroAtRoot(Root, e);
    NextRootIsRoot();
    TracelessIsZeroAtRoot(NextRoot, e);
    LastRootIsRoot();
    TracelessIsZeroAtRoot(LastRoot, e);
  }

  lemma TracelessVanishes(e: seq<bv5>, p: nat, q: nat, r: nat)
    requires |e| <= 1023 && p < |e| && q < |e| && r < |e| && p != q && p != r && q != r
    requires forall i :: 0 <= i < |e| && i != p && i != q && i != r ==> e[i] == 0
    requires Absorb(Step, 0, e) == 0
    ensures LiftSymbol(e[p]) == 0 && LiftSymbol(e[q]) == 0 && LiftSymbol(e[r]) == 0
  {
    FieldLaws();
    RootsAreConsecutive();
    ZeroAtTheRoots(e);
    var last := GeneratorSeparates();
    LiftSymbolOfZero(0);
    ThreeSymbolsVanish(Xor10, 0, Alpha, last, Root, NextRoot, LastRoot, LiftSymbol, 0, e, p, q, r);
  }

  /** From the zero register, errors at three positions of a string of at most 1023 symbols leave a
      trace. */
  lemma TripleLeavesTrace(e: seq<bv5>, p: nat, q: nat, r: nat)
    requires |e| <= 1023 && p < |e| && q < |e| && r < |e| && p != q && p != r && q != r
    requires forall i :: 0 <= i < |e| && i != p && i != q && i != r ==> e[i] == 0
    requires Absorb(Step, 0, e) == 0
    ensures forall i :: 0 <= i < |e| ==> e[i] == 0
  {
    TracelessVanishes(e, p, q, r);
    LiftSymbolOfZero(e[p]);
    LiftSymbolOfZero(e[q]);
    LiftSymbolOfZero(e[r]);
  }

  /** A position among the first three that is neither of two. */
  function Other(a: int, b: int): nat {
    if a != 0 && b != 0 then 0 else if a != 1 && b != 1 then 1 else 2
  }

  /** Three different positions that include those of `p`, `q` and `r` that exist. */
  function Positions(n: nat, p: int, q: int, r: int): (t: (nat, nat, nat))
    requires n >= 3
    ensures t.0 < n && t.1 < n && t.2 < n && t.0 != t.1 && t.0 != t.2 && t.1 != t.2
    ensures 0 <= p < n ==> p == t.0 || p == t.1 || p == t.2
    ensures 0 <= q < n ==> q == t.0 || q == t.1 || q == t.2
    ensures 0 <= r < n ==> r == t.0 || r == t.1 || r == t.2
  {
    var a: nat := if 0 <= p < n then p else Other(q, r);
    var b: nat := if 0 <= q < n && q != a then q else Other(a, r);
    var c: nat := if 0 <= r < n && r != a && r != b then r else Other(a, b);
    (a, b, c)
  }

  /** Two strings of at most 1023 symbols that verify under one human-readable part cannot differ at
      only three positions. */
  lemma ThreeSubstitutionsAreDetected(hrp: string, a: seq<bv5>, b: seq<bv5>, p: int, q: int, r: int)
    requires |a| == |b| <= 1023 && VerifyChecksum(hrp, a) && VerifyChecksum(hrp, b)
    requires forall i :: 0 <= i < |a| && i != p && i != q && i != r ==> a[i] == b[i]
    ensures a == b
  {
    if |a| < 3 {
      TwoTokensDifferWidely(hrp, a, b, 0);
    } else {
      var h := HrpExpand(hrp);
      AbsorbAppend(Step, 1, h, a);
      AbsorbAppend(Step, 1, h, b);
      DifferenceReadsZero(Polymod(h), a, b);
      var t := Positions(|a|, p, q, r);
      TripleLeavesTrace(Combine(Xor5, a, b), t.0, t.1, t.2);
    }
  }
}
