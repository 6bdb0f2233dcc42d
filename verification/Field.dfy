/** The field of 1024 elements over which the checksum's errors are located. An element is ten bits,
    a polynomial in the generator, which is a root of x^10 + x^9 + x^5 + x^2 + 1. */
module Field {
  import opened Xor
  import opened Iteration
  import opened Polynomials

  function Xor10(a: bv10, b: bv10): bv10 { a ^ b }

  /** Multiplication by the generator. */
  function Alpha(y: bv10): bv10 { if y & 0x200 != 0 then (y << 1) ^ 0x225 else y << 1 }

  lemma {:induction false} Xor10Laws(a: bv10, b: bv10, c: bv10)
    ensures a ^ b == b ^ a && (a ^ b) ^ c == a ^ (b ^ c) && a ^ a == 0 && a ^ 0 == a
  {
  }

  lemma {:induction false} ShiftAdds(a: bv10, b: bv10)
    ensures (a ^ b) << 1 == (a << 1) ^ (b << 1)
    ensures ((a ^ b) & 0x200 != 0) <==> ((a & 0x200 != 0) != (b & 0x200 != 0))
  {
  }

  lemma {:induction false} AlphaAdds(a: bv10, b: bv10)
    ensures Alpha(Xor10(a, b)) == Xor10(Alpha(a), Alpha(b))
  {
    ShiftAdds(a, b);
    Xor10Laws(a << 1, b << 1, 0x225);
    Xor10Laws(a << 1, 0x225, b << 1);
    Xor10Laws(b << 1, 0x225, 0x225);
  }

  lemma {:induction false} AlphaOfZero(a: bv10)
    ensures Alpha(a) == 0 <==> a == 0
  {
  }

  lemma Xor10IsAbelian()
    ensures Abelian(Xor10)
  {
    forall a, b, c ensures Xor10(a, b) == Xor10(b, a) && Xor10(Xor10(a, b), c) == Xor10(a, Xor10(b, c)) {
      Xor10Laws(a, b, c);
    }
  }

  lemma Xor10IsExclusive()
    ensures Exclusive(Xor10, 0)
  {
    Xor10IsAbelian();
    forall a ensures Xor10(a, a) == 0 { Xor10Laws(a, a, a); }
    forall a ensures Xor10(a, 0) == a { Xor10Laws(a, a, a); }
  }

  lemma FieldLaws()
    ensures Exclusive(Xor10, 0) && Additive(Xor10, Xor10, Alpha) && Faithful(Alpha, 0)
  {
    Xor10IsExclusive();
    forall a, b ensures Alpha(Xor10(a, b)) == Xor10(Alpha(a), Alpha(b)) { AlphaAdds(a, b); }
    forall a ensures Alpha(a) == 0 <==> a == 0 { AlphaOfZero(a); }
  }

  // ---- Products ----

  function Bits(y: bv10): seq<bool> {
    [y & 1 != 0, y & 2 != 0, y & 4 != 0, y & 8 != 0, y & 0x10 != 0,
     y & 0x20 != 0, y & 0x40 != 0, y & 0x80 != 0, y & 0x100 != 0, y & 0x200 != 0]
  }

  function Pick(p: bool, k: bv10): bv10 { if p then k else 0 }

  /** Five terms of a product, on top of the others. */
  function Terms(a: bool, b: bool, c: bool, d: bool, e: bool, k: bv10, rest: bv10): bv10 {
    Xor10(Pick(a, k), Xor10(Pick(b, Alpha(k)), Xor10(Pick(c, Alpha(Alpha(k))),
      Xor10(Pick(d, Alpha(Alpha(Alpha(k)))), Xor10(Pick(e, Alpha(Alpha(Alpha(Alpha(k))))), rest)))))
  }

  function Alpha5(k: bv10): bv10 { Alpha(Alpha(Alpha(Alpha(Alpha(k))))) }

  function Times(y: bv10, k: bv10): bv10 {
    Terms(y & 1 != 0, y & 2 != 0, y & 4 != 0, y & 8 != 0, y & 0x10 != 0, k,
      Terms(y & 0x20 != 0, y & 0x40 != 0, y & 0x80 != 0, y & 0x100 != 0, y & 0x200 != 0, Alpha5(k), 0))
  }

  lemma {:induction false} TimesIsDot(y: bv10, k: bv10)
    ensures Times(y, k) == Dot(Xor10, 0, Alpha, Bits(y), k)
  {
    var b := Bits(y);
    DotFive(Xor10, 0, Alpha, b, k);
    DotFive(Xor10, 0, Alpha, b[5..], Alpha5(k));
    assert b[5..][5..] == [];
  }

  lemma {:induction false} BasisIs()
    ensures Alpha(1) == 2 && Alpha(2) == 4 && Alpha(4) == 8 && Alpha(8) == 0x10 && Alpha(0x10) == 0x20
    ensures Alpha(0x20) == 0x40 && Alpha(0x40) == 0x80 && Alpha(0x80) == 0x100 && Alpha(0x100) == 0x200
  {
  }

  lemma {:induction false} LowBits(y: bv10)
    ensures (if y & 1 != 0 then 1 else 0) ^ ((if y & 2 != 0 then 2 else 0) ^ ((if y & 4 != 0 then 4 else 0) ^
      ((if y & 8 != 0 then 8 else 0) ^ ((if y & 0x10 != 0 then 0x10 else 0) ^ (y & 0x3e0))))) == y
  {
  }

  lemma {:induction false} HighBits(y: bv10)
    ensures (if y & 0x20 != 0 then 0x20 else 0) ^ ((if y & 0x40 != 0 then 0x40 else 0) ^
      ((if y & 0x80 != 0 then 0x80 else 0) ^ ((if y & 0x100 != 0 then 0x100 else 0) ^
      ((if y & 0x200 != 0 then 0x200 else 0) ^ 0)))) == y & 0x3e0
  {
  }

  lemma {:induction false} HighTerms(y: bv10)
    ensures Terms(y & 0x20 != 0, y & 0x40 != 0, y & 0x80 != 0, y & 0x100 != 0, y & 0x200 != 0, 0x20, 0) == y & 0x3e0
  {
    BasisIs();
    HighBits(y);
  }

  lemma {:induction false} LowTerms(y: bv10)
    ensures Terms(y & 1 != 0, y & 2 != 0, y & 4 != 0, y & 8 != 0, y & 0x10 != 0, 1, y & 0x3e0) == y
  {
    BasisIs();
    LowBits(y);
  }

  lemma {:induction false} TimesOne(y: bv10)
    ensures Times(y, 1) == y
  {
    BasisIs();
    HighTerms(y);
    LowTerms(y);
  }

  // ---- Powers of the generator ----

  /** Products of powers, up to the power that is one. */
  ghost predicate Products(times: (bv10, bv10) -> bv10) {
    && times(0x2, 0x2) == 0x4 && times(0x4, 0x4) == 0x10 && times(0x10, 0x10) == 0x100
    && times(0x100, 0x4) == 0x225 && times(0x225, 0x2) == 0x26f && times(0x26f, 0x26f) == 0x2f
    && times(0x2f, 0x26f) == 0x2ed && times(0x2f, 0x100) == 0x99 && times(0x99, 0x2) == 0x132
    && times(0x132, 0x132) == 0x308 && times(0x308, 0x132) == 0xd9 && times(0x308, 0x308) == 0xcd
    && times(0xcd, 0xcd) == 0x329 && times(0x329, 0xd9) == 0x96 && times(0x96, 0x96) == 0x97
    && times(0x97, 0x96) == 0x1
  }

  lemma {:induction false} LowProducts()
    ensures Times(0x2, 0x2) == 0x4 && Times(0x4, 0x4) == 0x10 && Times(0x10, 0x10) == 0x100
    ensures Times(0x100, 0x4) == 0x225 && Times(0x225, 0x2) == 0x26f && Times(0x26f, 0x26f) == 0x2f
    ensures Times(0x2f, 0x26f) == 0x2ed && Times(0x2f, 0x100) == 0x99
  {
  }

  lemma {:induction false} HighProducts()
    ensures Times(0x99, 0x2) == 0x132 && Times(0x132, 0x132) == 0x308 && Times(0x308, 0x132) == 0xd9
    ensures Times(0x308, 0x308) == 0xcd && Times(0xcd, 0xcd) == 0x329 && Times(0x329, 0xd9) == 0x96
    ensures Times(0x96, 0x96) == 0x97 && Times(0x97, 0x96) == 0x1
  {
  }

  lemma {:induction false} TimesHasProducts()
    ensures Products(Times)
  {
    LowProducts();
    HighProducts();
  }

  /** Names the powers a product is formed of. */
  ghost predicate Pair(m: nat, a: bv10, n: nat, b: bv10) { true }

  /** Exponents add as elements multiply. */
  ghost predicate Exponents(power: (nat, bv10) -> bool, times: (bv10, bv10) -> bv10) {
    forall m: nat, a, n: nat, b {:trigger Pair(m, a, n, b)} :: power(m, a) && power(n, b) ==> power(m + n, times(a, b))
  }

  lemma Reaches(power: (nat, bv10) -> bool, times: (bv10, bv10) -> bv10) returns (a: nat, b: nat, c: nat, n: nat)
    requires Exponents(power, times) && Products(times) && power(1, 2)
    ensures power(a, 0x2ed) && power(b, 0xd9) && power(c, 0x96) && power(n, 1) && n > 1022 && Settles(a, b, c, n)
  {
    a, b, c, n := 33, 93, 341, 1023;
    assert Pair(1, 0x2, 1, 0x2) && power(2, 0x4);
    assert Pair(2, 0x4, 2, 0x4) && power(4, 0x10);
    assert Pair(4, 0x10, 4, 0x10) && power(8, 0x100);
    assert Pair(8, 0x100, 2, 0x4) && power(10, 0x225);
    assert Pair(10, 0x225, 1, 0x2) && power(11, 0x26f);
    assert Pair(11, 0x26f, 11, 0x26f) && power(22, 0x2f);
    assert Pair(22, 0x2f, 11, 0x26f) && power(33, 0x2ed);
    assert Pair(22, 0x2f, 8, 0x100) && power(30, 0x99);
    assert Pair(30, 0x99, 1, 0x2) && power(31, 0x132);
    assert Pair(31, 0x132, 31, 0x132) && power(62, 0x308);
    assert Pair(62, 0x308, 31, 0x132) && power(93, 0xd9);
    assert Pair(62, 0x308, 62, 0x308) && power(124, 0xcd);
    assert Pair(124, 0xcd, 124, 0xcd) && power(248, 0x329);
    assert Pair(248, 0x329, 93, 0xd9) && power(341, 0x96);
    assert Pair(341, 0x96, 341, 0x96) && power(682, 0x97);
    assert Pair(682, 0x97, 341, 0x96) && power(1023, 0x1);
    ProperDivisors();
  }

  lemma ProperDivisors()
    ensures Settles(33, 93, 341, 1023)
  {
    forall g: nat | 0 < g < 1023 && 1023 % g == 0 ensures 33 % g == 0 || 93 % g == 0 || 341 % g == 0 {
      ProperDivisor(g, 1023 / g);
    }
  }

  lemma Refactors(p: nat, h: nat, q: nat)
    ensures (p * h) * q == p * (h * q)
  {
  }

  lemma SmallDivisor(n: nat, q: nat)
    requires n * q == 1023 && n < 33
    ensures n == 1 || n == 3 || n == 11 || n == 31
  {
    if n % 2 == 0 { Refactors(2, n / 2, q); }
    else if n % 5 == 0 { Refactors(5, n / 5, q); }
    else if n % 7 == 0 { Refactors(7, n / 7, q); }
    else if n % 9 == 0 { Refactors(9, n / 9, q); }
    else if n % 13 == 0 { Refactors(13, n / 13, q); }
  }

  lemma AtLeast(g: nat, k: nat)
    requires g >= 33 && k >= 33
    ensures g * k >= 33 * 33
  {
    assert g * k >= 33 * k;
  }

  lemma ProperDivisor(g: nat, k: nat)
    requires g * k == 1023 && g < 1023
    ensures 33 % g == 0 || 93 % g == 0 || 341 % g == 0
  {
    if g < 33 {
      SmallDivisor(g, k);
    } else if k < 33 {
      SmallDivisor(k, g);
    } else {
      AtLeast(g, k);
      assert false;
    }
  }

  predicate IsPower(n: nat, a: bv10) { Iterate(Alpha, 1, n) == a }

  lemma PowersMultiplyAt(m: nat, a: bv10, n: nat, b: bv10)
    requires IsPower(m, a) && IsPower(n, b)
    ensures IsPower(m + n, Times(a, b))
  {
    FieldLaws();
    TimesOne(a);
    TimesIsDot(a, 1);
    TimesIsDot(a, b);
    PowersAdd(Xor10, 0, Alpha, Bits(a), 1, m, n);
  }

  lemma PowersMultiply()
    ensures Exponents(IsPower, Times)
  {
    forall m: nat, a, n: nat, b | IsPower(m, a) && IsPower(n, b) ensures IsPower(m + n, Times(a, b)) {
      PowersMultiplyAt(m, a, n, b);
    }
  }

  /** Only zero returns after `n` steps, given the inverse of one more than the `n`th power. */
  lemma NeverBack(y: bv10, n: nat, a: bv10, inverse: bv10)
    requires IsPower(n, a) && Times(inverse, Xor10(a, 1)) == 1 && Returns(Alpha, y, n)
    ensures y == 0
  {
    FieldLaws();
    TimesOne(y);
    TimesIsDot(y, 1);
    TimesIsDot(inverse, Xor10(a, 1));
    NeverReturns(Xor10, 0, Alpha, Bits(y), Bits(inverse), 1, n);
  }

  lemma AlwaysBack(y: bv10, n: nat)
    requires IsPower(n, 1)
    ensures Returns(Alpha, y, n)
  {
    FieldLaws();
    TimesOne(y);
    TimesIsDot(y, 1);
    IterateIsDot(Xor10, 0, Alpha, Bits(y), 1, n);
  }

  lemma {:induction false} Inverses()
    ensures Times(0x122, Xor10(0x2ed, 1)) == 1 && Times(0x27a, Xor10(0xd9, 1)) == 1 && Times(0x96, Xor10(0x96, 1)) == 1
  {
  }

  lemma FirstPower()
    ensures IsPower(1, 2)
  {
    assert Iterate(Alpha, 1, 1) == Alpha(Iterate(Alpha, 1, 0));
    BasisIs();
  }

  lemma KeyPowers() returns (a: nat, b: nat, c: nat, n: nat)
    ensures IsPower(a, 0x2ed) && IsPower(b, 0xd9) && IsPower(c, 0x96) && IsPower(n, 1)
    ensures n > 1022 && Settles(a, b, c, n)
  {
    PowersMultiply();
    TimesHasProducts();
    FirstPower();
    a, b, c, n := Reaches(IsPower, Times);
  }

  lemma NoneReturns(y: bv10, a: nat, b: nat, c: nat)
    requires IsPower(a, 0x2ed) && IsPower(b, 0xd9) && IsPower(c, 0x96)
    requires Returns(Alpha, y, a) || Returns(Alpha, y, b) || Returns(Alpha, y, c)
    ensures y == 0
  {
    Inverses();
    if Returns(Alpha, y, a) {
      NeverBack(y, a, 0x2ed, 0x122);
    } else if Returns(Alpha, y, b) {
      NeverBack(y, b, 0xd9, 0x27a);
    } else {
      NeverBack(y, c, 0x96, 0x96);
    }
  }

  /** The generator has order 1023: from anything but zero, its first 1023 multiples all differ. */
  lemma GeneratorSeparates() returns (last: nat)
    ensures last >= 1022 && Separates(Alpha, 0, last)
  {
    FieldLaws();
    var a, b, c, n := KeyPowers();
    forall y ensures Returns(Alpha, y, n) { AlwaysBack(y, n); }
    forall y | Returns(Alpha, y, a) || Returns(Alpha, y, b) || Returns(Alpha, y, c) ensures y == 0 {
      NoneReturns(y, a, b, c);
    }
    OrderSeparates(Alpha, 0, a, b, c, n);
    last := n - 1;
  }

  // ---- The roots of the checksum polynomial ----

  /** Multiplication by the 997th power of the generator, */
  function Root(y: bv10): bv10 { Xor10(y, Xor10(Alpha(Alpha(y)), Alpha(Alpha(Alpha(y))))) }

  /** by the 998th, */
  function NextRoot(y: bv10): bv10 { Alpha(Root(y)) }

  /** and by the 999th. */
  function LastRoot(y: bv10): bv10 { Alpha(NextRoot(y)) }

  lemma {:induction false} RootInverse()
    ensures Times(0x2f0, 0xd) == 1
  {
  }

  /** What has an inverse maps only zero to zero. */
  lemma InverseIsFaithful(k: bv10, inverse: bv10, y: bv10)
    requires Times(inverse, Times(k, 1)) == 1 && Times(k, y) == 0
    ensures y == 0
  {
    FieldLaws();
    TimesOne(y);
    TimesIsDot(y, 1);
    TimesIsDot(k, y);
    TimesIsDot(k, 1);
    TimesIsDot(inverse, Times(k, 1));
    InverseCancels(Xor10, 0, Alpha, Bits(y), Bits(k), Bits(inverse), 1);
  }

  lemma {:induction false} ZerosDrop(a: bv10, b: bv10, c: bv10)
    ensures a ^ (0 ^ (b ^ (c ^ (0 ^ (0 ^ (0 ^ (0 ^ (0 ^ (0 ^ 0))))))))) == a ^ (b ^ c)
  {
  }

  lemma {:induction false} RootIsProduct(y: bv10)
    ensures Root(y) == Times(0xd, y)
  {
    ZerosDrop(y, Alpha(Alpha(y)), Alpha(Alpha(Alpha(y))));
  }

  lemma RootIsFaithful(y: bv10)
    ensures Root(y) == 0 ==> y == 0
  {
    if Root(y) == 0 {
      RootIsProduct(y);
      TimesOne(0xd);
      RootInverse();
      InverseIsFaithful(0xd, 0x2f0, y);
    }
  }

  lemma RootScales()
    ensures Scales(Xor10, 0, Alpha, Root)
  {
    FieldLaws();
    forall y ensures Root(y) == 0 ==> y == 0 { RootIsFaithful(y); }
    forall y ensures Root(y) == Dot(Xor10, 0, Alpha, Bits(0xd), y) {
      RootIsProduct(y);
      TimesIsDot(0xd, y);
    }
    DotScales(Xor10, 0, Alpha, Bits(0xd), Root);
  }

  lemma RootsScale()
    ensures Scales(Xor10, 0, Alpha, Root) && Scales(Xor10, 0, Alpha, NextRoot) && Scales(Xor10, 0, Alpha, LastRoot)
  {
    FieldLaws();
    RootScales();
    ScalesNext(Xor10, 0, Alpha, Root, NextRoot);
    ScalesNext(Xor10, 0, Alpha, NextRoot, LastRoot);
  }
}
