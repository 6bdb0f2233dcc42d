/** 8-to-5 and 5-to-8 bit regrouping of the identity token. Both directions are measured against
    plain positional notation: the number a byte string denotes in base 256 and the number a group
    string denotes in base 32. The 32-bit accumulator is unmasked, so it wraps. */
module Regroup {
  import opened Options

  type Byte = b: nat | b < 256
  type Symbol = s: nat | s < 32

  /** `1 << n`, for the few bits ever pending. */
  function Pow2(n: nat): (p: nat)
    requires n < 13
    ensures p > 0
  {
    match n
    case 0 => 1 case 1 => 2 case 2 => 4 case 3 => 8 case 4 => 16 case 5 => 32 case 6 => 64
    case 7 => 128 case 8 => 256 case 9 => 512 case 10 => 1024 case 11 => 2048 case _ => 4096
  }

  function Number256(bytes: seq<Byte>): nat {
    if |bytes| == 0 then 0 else Number256(bytes[..|bytes| - 1]) * 256 + bytes[|bytes| - 1]
  }

  function Number32(groups: seq<Symbol>): nat {
    if |groups| == 0 then 0 else Number32(groups[..|groups| - 1]) * 32 + groups[|groups| - 1]
  }

  /** `groups` spells the bits of `bytes`, followed by fewer than five zero bits. */
  predicate Spells(groups: seq<Symbol>, bytes: seq<Byte>) {
    var pad := 5 * |groups| - 8 * |bytes|;
    0 <= pad < 5 && Number32(groups) == Number256(bytes) * Pow2(pad)
  }

  lemma {:induction false} Number256IsInjective(a: seq<Byte>, b: seq<Byte>)
    requires |a| == |b| && Number256(a) == Number256(b)
    ensures a == b
  {
    if |a| > 0 {
      var n := |a| - 1;
      Number256IsInjective(a[..n], b[..n]);
      assert a == a[..n] + [a[n]] && b == b[..n] + [b[n]];
    }
  }

  lemma {:induction false} Number32IsInjective(a: seq<Symbol>, b: seq<Symbol>)
    requires |a| == |b| && Number32(a) == Number32(b)
    ensures a == b
  {
    if |a| > 0 {
      var n := |a| - 1;
      Number32IsInjective(a[..n], b[..n]);
      assert a == a[..n] + [a[n]] && b == b[..n] + [b[n]];
    }
  }

  lemma ScaleIsInjective(x: nat, y: nat, n: nat)
    requires n < 5 && x * Pow2(n) == y * Pow2(n)
    ensures x == y
  {
    if n == 0 {} else if n == 1 {} else if n == 2 {} else if n == 3 {} else {}
  }

  /** `Spells` is a one-to-one relation: each side fixes the other. */
  lemma SpellsIsOneToOne(g: seq<Symbol>, h: seq<Symbol>, a: seq<Byte>, b: seq<Byte>)
    requires Spells(g, a) && Spells(h, b)
    ensures a == b <==> g == h
  {
    if a == b {
      assert |g| == |h|;
      Number32IsInjective(g, h);
    }
    if g == h {
      assert |a| == |b|;
      ScaleIsInjective(Number256(a), Number256(b), 5 * |g| - 8 * |a|);
      Number256IsInjective(a, b);
    }
  }

  // ---- The accumulator: only its pending low bits matter ----

  lemma {:induction false} MulMonotone(m: nat, a: nat, b: nat)
    requires a < b
    ensures m * a + m <= m * b
  {
    assert m * b == m * (b - 1) + m;
    if a < b - 1 {
      MulMonotone(m, a, b - 1);
    }
  }

  lemma RemainderIsUnique(m: nat, q: nat, r: nat, q': nat, r': nat)
    requires r < m && r' < m && m * q + r == m * q' + r'
    ensures q == q' && r == r'
  {
    if q < q' {
      MulMonotone(m, q, q');
    } else if q' < q {
      MulMonotone(m, q', q);
    }
  }

  lemma NoRemainder(x: nat, y: nat, r: nat, m: nat)
    requires r < m && x * m + r == y * m
    ensures r == 0 && x == y
  {
    RemainderIsUnique(m, x, r, y, 0);
  }

  lemma ModIs(x: nat, m: nat, q: nat, r: nat)
    requires r < m && x == m * q + r
    ensures x % m == r
  {
    RemainderIsUnique(m, q, r, x / m, x % m);
  }

  lemma Below(d: nat, k: nat, p: nat, r: nat)
    requires d < k && r < p
    ensures d * p + r < p * k && p * k > 0
  {
    MulMonotone(p, d, k);
  }

  lemma Expand(p: nat, k: nat, q: nat, d: nat, r: nat)
    ensures p * (k * q + d) + r == (p * k) * q + (d * p + r)
    ensures (p * q + r) * k + d == (p * k) * q + (r * k + d)
  {
  }

  /** Appending a digit below `k` to a number `q * p + r`. */
  lemma PushDigit(p: nat, k: nat, q: nat, r: nat, d: nat)
    requires r < p && d < k
    ensures p * k > 0 && ((p * q + r) * k + d) % (p * k) == r * k + d
  {
    Expand(p, k, q, d, r);
    Below(r, p, k, d);
    ModIs((p * q + r) * k + d, p * k, q, r * k + d);
  }

  lemma ModPush(acc: nat, p: nat, k: nat, d: nat)
    requires p > 0 && d < k
    ensures p * k > 0 && (acc * k + d) % (p * k) == acc % p * k + d
  {
    assert acc == p * (acc / p) + acc % p;
    PushDigit(p, k, acc / p, acc % p, d);
  }

  /** Splitting the top base-`k` digit off a number seen modulo `p * k`. */
  lemma PopDigit(p: nat, k: nat, q: nat, d: nat, r: nat)
    requires d < k && r < p
    ensures p * k > 0 && (p * (k * q + d) + r) % (p * k) == d * p + r
  {
    Expand(p, k, q, d, r);
    Below(d, k, p, r);
    ModIs(p * (k * q + d) + r, p * k, q, d * p + r);
  }

  lemma ModPop(x: nat, p: nat, k: nat)
    requires p > 0 && k > 0
    ensures p * k > 0 && x % (p * k) == x / p % k * p + x % p
  {
    var q := x / p;
    assert x == p * q + x % p;
    assert q == k * (q / k) + q % k;
    PopDigit(p, k, q / k, q % k, x % p);
  }

  /** A wider modulus is invisible behind a narrower one. */
  lemma ModMod(x: nat, p: nat, k: nat)
    requires p > 0 && k > 0
    ensures p * k > 0 && x % (p * k) % p == x % p
  {
    ModPop(x, p, k);
    ModIs(x % (p * k), p, x / p % k, x % p);
  }

  // ---- Shifts and masks ----

  function Low5(x: nat): Symbol { x % 32 }

  function Low8(x: nat): Byte { x % 256 }

  /** `x << n`. */
  function Shl(x: nat, n: nat): nat
    requires n < 13
  {
    x * Pow2(n)
  }

  /** `x >> n`. */
  function Shr(x: nat, n: nat): nat
    requires n < 13
  {
    x / Pow2(n)
  }

  /** `x & ((1 << n) - 1)`: what the shift drops. */
  function LowBits(x: nat, n: nat): nat
    requires n < 13
  {
    x - Shl(Shr(x, n), n)
  }

  lemma LowBitsIs(x: nat, n: nat)
    requires n < 13
    ensures LowBits(x, n) == x % Pow2(n)
  {
  }

  /** What the loops keep: the bits read so far are those emitted and those pending. */
  predicate Conserves(read: nat, emitted: nat, acc: nat, bits: nat)
    requires bits < 13
  {
    read == Shl(emitted, bits) + LowBits(acc, bits)
  }

  lemma Pow2Adds(m: nat, n: nat)
    requires m + n < 13
    ensures Pow2(m + n) == Pow2(m) * Pow2(n)
  {
  }

  /** What the 32-bit accumulator keeps beyond the pending bits. */
  lemma WidthLeft(m: nat, n: nat) returns (wide: nat)
    requires m + n < 13
    ensures wide > 0 && Pow2(m) * Pow2(n) * wide == U32 && Pow2(m) * Pow2(n) == Pow2(m + n)
  {
    Pow2Adds(m, n);
    wide := U32 / Pow2(m + n);
  }

  /** The pending part of a wrapped accumulator after a digit has been shifted in. */
  lemma PendingAfter(acc: nat, p: nat, k: nat, d: nat, wide: nat)
    requires p > 0 && d < k && wide > 0
    ensures p * k > 0 && p * k * wide > 0
    ensures (acc * k + d) % (p * k * wide) % (p * k) == acc % p * k + d
  {
    ModPush(acc, p, k, d);
    ModMod(acc * k + d, p * k, wide);
  }

  lemma TakesDigit(read: nat, emitted: nat, acc: nat, p: nat, k: nat, d: nat, after: nat)
    requires p > 0 && read == emitted * p + acc % p && after == acc % p * k + d
    ensures read * k + d == emitted * (p * k) + after
  {
    Expand(p, k, emitted, d, acc % p);
  }

  /** Shifting a digit in keeps the sum, although the accumulator wraps. */
  lemma Takes(read: nat, emitted: nat, acc: nat, bits: nat, width: nat, d: nat)
    requires bits + width < 13 && d < Pow2(width) && Conserves(read, emitted, acc, bits)
    ensures Conserves(read * Pow2(width) + d, emitted, (acc * Pow2(width) + d) % U32, bits + width)
  {
    var wide := WidthLeft(bits, width);
    var p, k := Pow2(bits), Pow2(width);
    LowBitsIs(acc, bits);
    LowBitsIs((acc * k + d) % U32, bits + width);
    PendingAfter(acc, p, k, d, wide);
    TakesDigit(read, emitted, acc, p, k, d, (acc * k + d) % U32 % (p * k));
  }

  lemma GivesDigit(read: nat, emitted: nat, acc: nat, p: nat, k: nat)
    requires p > 0 && k > 0
    ensures p * k > 0
    ensures read == emitted * (p * k) + acc % (p * k) ==> read == (emitted * k + acc / p % k) * p + acc % p
  {
    ModPop(acc, p, k);
    Expand(p, k, emitted, acc / p % k, acc % p);
  }

  /** Emitting the top pending digit keeps the sum. */
  lemma Gives(read: nat, emitted: nat, acc: nat, bits: nat, width: nat)
    requires width <= bits < 13 && Conserves(read, emitted, acc, bits)
    ensures Conserves(read, emitted * Pow2(width) + Shr(acc, bits - width) % Pow2(width), acc, bits - width)
  {
    Pow2Adds(bits - width, width);
    LowBitsIs(acc, bits);
    LowBitsIs(acc, bits - width);
    GivesDigit(read, emitted, acc, Pow2(bits - width), Pow2(width));
  }

  // ---- The source's loops ----

  /** The inner loop: emit every complete group. */
  method EmitGroups(ghost read: nat, start: seq<Symbol>, acc: nat, pending: nat) returns (out: seq<Symbol>, bits: nat)
    requires pending < 13 && Conserves(read, Number32(start), acc, pending)
    ensures bits < 5 && 5 * |out| + bits == 5 * |start| + pending
    ensures Conserves(read, Number32(out), acc, bits)
  {
    out, bits := start, pending;
    while bits >= 5
      invariant bits < 13 && 5 * |out| + bits == 5 * |start| + pending
      invariant Conserves(read, Number32(out), acc, bits)
    {
      Gives(read, Number32(out), acc, bits, 5);
      bits := bits - 5;
      out := out + [Low5(Shr(acc, bits))];
    }
  }

  /** The last, zero-padded group, if any bits are left. */
  method EmitPadding(ghost bytes: seq<Byte>, start: seq<Symbol>, acc: nat, bits: nat) returns (out: seq<Symbol>)
    requires bits < 5 && 5 * |start| + bits == 8 * |bytes|
    requires Conserves(Number256(bytes), Number32(start), acc, bits)
    ensures Spells(out, bytes)
  {
    PadsOut(bytes, start, acc, bits);
    out := if bits > 0 then start + [Low5(Shl(acc, 5 - bits) % U32)] else start;
  }

  /** Bytes to five-bit groups, zero padded. */
  method ToFiveBit(bytes: seq<Byte>) returns (out: seq<Symbol>)
    ensures Spells(out, bytes)
  {
    var acc: nat, bits: nat := 0, 0;
    out := [];
    for i := 0 to |bytes|
      invariant bits < 5 && 5 * |out| + bits == 8 * i
      invariant Conserves(Number256(bytes[..i]), Number32(out), acc, bits)
    {
      out, acc, bits := TakeByte(bytes, i, out, acc, bits);
    }
    assert bytes[..|bytes|] == bytes;
    out := EmitPadding(bytes, out, acc, bits);
  }

  /** The body of the outer loop: shift the next byte in and emit what is complete. */
  method TakeByte(bytes: seq<Byte>, i: nat, start: seq<Symbol>, before: nat, pending: nat)
    returns (out: seq<Symbol>, acc: nat, bits: nat)
    requires i < |bytes| && pending < 5 && 5 * |start| + pending == 8 * i
    requires Conserves(Number256(bytes[..i]), Number32(start), before, pending)
    ensures bits < 5 && 5 * |out| + bits == 8 * (i + 1)
    ensures Conserves(Number256(bytes[..i + 1]), Number32(out), acc, bits)
  {
    Takes(Number256(bytes[..i]), Number32(start), before, pending, 8, bytes[i]);
    assert bytes[..i + 1][..i] == bytes[..i];
    acc := (before * 256 + bytes[i]) % U32;
    out, bits := EmitGroups(Number256(bytes[..i + 1]), start, acc, pending + 8);
  }

  lemma PadsOut(bytes: seq<Byte>, out: seq<Symbol>, acc: nat, bits: nat)
    requires bits < 5 && 5 * |out| + bits == 8 * |bytes|
    requires Conserves(Number256(bytes), Number32(out), acc, bits)
    ensures Spells(if bits == 0 then out else out + [Low5(Shl(acc, 5 - bits) % U32)], bytes)
  {
    if bits > 0 {
      Takes(Number256(bytes), Number32(out), acc, bits, 5 - bits, 0);
      var all := out + [Low5(Shl(acc, 5 - bits) % U32)];
      assert all[..|out|] == out;
    }
  }

  /** `acc = (acc << 5) | group`, wrapping at 32 bits. */
  method PushGroup(groups: seq<Symbol>, i: nat, ghost emitted: nat, acc: nat, ghost bits: nat) returns (acc': nat)
    requires i < |groups| && bits < 8 && Conserves(Number32(groups[..i]), emitted, acc, bits)
    ensures acc' == (acc * 32 + groups[i]) % U32
    ensures Conserves(Number32(groups[..i + 1]), emitted, acc', bits + 5)
  {
    Takes(Number32(groups[..i]), emitted, acc, bits, 5, groups[i]);
    assert groups[..i + 1][..i] == groups[..i];
    acc' := (acc * 32 + groups[i]) % U32;
  }

  /** Emit a byte once eight bits are pending. */
  method EmitByte(ghost read: nat, start: seq<Byte>, acc: nat, pending: nat) returns (out: seq<Byte>, bits: nat)
    requires pending < 13 && Conserves(read, Number256(start), acc, pending)
    ensures bits < 8 && 8 * |out| + bits == 8 * |start| + pending
    ensures Conserves(read, Number256(out), acc, bits)
  {
    out, bits := start, pending;
    if bits >= 8 {
      Gives(read, Number256(out), acc, bits, 8);
      bits := bits - 8;
      out := out + [Low8(Shr(acc, bits))];
    }
  }

  /** What is left over decides: a spelling has fewer than five pending bits, all zero. */
  lemma Leftover(groups: seq<Symbol>, out: seq<Byte>, acc: nat, bits: nat, bytes: seq<Byte>)
    requires bits < 8 && 8 * |out| + bits == 5 * |groups|
    requires Conserves(Number32(groups), Number256(out), acc, bits)
    ensures Spells(groups, bytes) <==> bits < 5 && LowBits(acc, bits) == 0 && bytes == out
  {
    LowBitsIs(acc, bits);
    if Spells(groups, bytes) {
      assert |bytes| == |out| && bits < 5;
      NoRemainder(Number256(out), Number256(bytes), LowBits(acc, bits), Pow2(bits));
      Number256IsInjective(out, bytes);
    }
  }

  /** Five-bit groups to bytes; nothing when the padding is over-long or nonzero. */
  method ToEightBit(groups: seq<Symbol>) returns (r: Option<seq<Byte>>)
    ensures forall bytes :: r == Some(bytes) <==> Spells(groups, bytes)
  {
    var acc: nat, bits: nat := 0, 0;
    var out: seq<Byte> := [];
    for i := 0 to |groups|
      invariant bits < 8 && 8 * |out| + bits == 5 * i
      invariant Conserves(Number32(groups[..i]), Number256(out), acc, bits)
    {
      acc := PushGroup(groups, i, Number256(out), acc, bits);
      out, bits := EmitByte(Number32(groups[..i + 1]), out, acc, bits + 5);
    }
    assert groups[..|groups|] == groups;
    r := Finish(groups, out, acc, bits);
  }

  method Finish(ghost groups: seq<Symbol>, out: seq<Byte>, acc: nat, bits: nat) returns (r: Option<seq<Byte>>)
    requires bits < 8 && 8 * |out| + bits == 5 * |groups|
    requires Conserves(Number32(groups), Number256(out), acc, bits)
    ensures forall bytes :: r == Some(bytes) <==> Spells(groups, bytes)
  {
    forall bytes ensures Spells(groups, bytes) <==> bits < 5 && LowBits(acc, bits) == 0 && bytes == out {
      Leftover(groups, out, acc, bits, bytes);
    }
    r := if bits >= 5 || LowBits(acc, bits) != 0 then None else Some(out);
  }
}
