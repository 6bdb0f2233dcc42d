/** The bech32m checksum (BIP-350) of the identity token: a GF(2)-linear register over five-bit
    symbols, and the corruption it is certain to detect. */
module Bech32m {
  import opened Xor

  const BECH32M_CONST: bv32 := 0x2bc8_30a3
  const GEN: seq<bv32> := [0x3b6a_57b2, 0x2650_8e6d, 0x1ea1_19fa, 0x3d42_33dd, 0x2a14_62b3]

  function Xor32(a: bv32, b: bv32): bv32 { a ^ b }

  function Xor5(a: bv5, b: bv5): bv5 { a ^ b }

  // The generator words selected by the five bits shifted out, and their running sums.
  function Tap0(b: bv32): bv32 { if b & 1 != 0 then 0x3b6a_57b2 else 0 }
  function Tap1(b: bv32): bv32 { if b & 2 != 0 then 0x2650_8e6d else 0 }
  function Tap2(b: bv32): bv32 { if b & 4 != 0 then 0x1ea1_19fa else 0 }
  function Tap3(b: bv32): bv32 { if b & 8 != 0 then 0x3d42_33dd else 0 }
  function Tap4(b: bv32): bv32 { if b & 16 != 0 then 0x2a14_62b3 else 0 }

  function Taps2(b: bv32): bv32 { Xor32(Tap0(b), Tap1(b)) }
  function Taps3(b: bv32): bv32 { Xor32(Taps2(b), Tap2(b)) }
  function Taps4(b: bv32): bv32 { Xor32(Taps3(b), Tap3(b)) }
  function Taps5(b: bv32): bv32 { Xor32(Taps4(b), Tap4(b)) }

  function Feedback(chk: bv32): bv32 { Taps5(chk >> 25) }

  function Shift(chk: bv32): bv32 { (chk & 0x1ff_ffff) << 5 }

  function Extend(v: bv5): bv32 { v as bv32 }

  /** One register step: shift a symbol in, feed the five bits shifted out back. */
  function Step(chk: bv32, v: bv5): bv32 {
    Xor32(Xor32(Shift(chk), Extend(v)), Feedback(chk))
  }

  function Polymod(values: seq<bv5>): bv32 {
    Absorb(Step, 1, values)
  }

  lemma {:induction false} Xor32Laws(a: bv32, b: bv32, c: bv32)
    ensures a ^ b == b ^ a && (a ^ b) ^ c == a ^ (b ^ c) && a ^ a == 0 && a ^ 0 == a && 0 ^ a == a
  {
  }

  lemma Xor32IsAbelian()
    ensures Abelian(Xor32)
  {
    forall a, b, c ensures Xor32(a, b) == Xor32(b, a) && Xor32(Xor32(a, b), c) == Xor32(a, Xor32(b, c)) {
      Xor32Laws(a, b, c);
    }
  }

  lemma {:induction false} PickIsAdditive(p: bool, q: bool, g: bv32, x: bv32, y: bv32, z: bv32)
    requires x == if p != q then g else 0
    requires y == if p then g else 0
    requires z == if q then g else 0
    ensures x == y ^ z
  {
    Xor32Laws(g, 0, 0);
    if p { if q { assert y == g && z == g && x == 0; } }
  }

  lemma {:induction false} MasksAreAdditive(b: bv32, c: bv32)
    ensures ((b ^ c) & 1 != 0) <==> ((b & 1 != 0) != (c & 1 != 0))
    ensures ((b ^ c) & 2 != 0) <==> ((b & 2 != 0) != (c & 2 != 0))
    ensures ((b ^ c) & 4 != 0) <==> ((b & 4 != 0) != (c & 4 != 0))
    ensures ((b ^ c) & 8 != 0) <==> ((b & 8 != 0) != (c & 8 != 0))
    ensures ((b ^ c) & 16 != 0) <==> ((b & 16 != 0) != (c & 16 != 0))
  {
  }

  lemma Tap0IsAdditive()
    ensures Additive(Xor32, Xor32, Tap0)
  {
    forall b, c ensures Tap0(Xor32(b, c)) == Xor32(Tap0(b), Tap0(c)) {
      MasksAreAdditive(b, c);
      PickIsAdditive(b & 1 != 0, c & 1 != 0, 0x3b6a_57b2, Tap0(Xor32(b, c)), Tap0(b), Tap0(c));
    }
  }

  lemma Tap1IsAdditive()
    ensures Additive(Xor32, Xor32, Tap1)
  {
    forall b, c ensures Tap1(Xor32(b, c)) == Xor32(Tap1(b), Tap1(c)) {
      MasksAreAdditive(b, c);
      PickIsAdditive(b & 2 != 0, c & 2 != 0, 0x2650_8e6d, Tap1(Xor32(b, c)), Tap1(b), Tap1(c));
    }
  }

  lemma Tap2IsAdditive()
    ensures Additive(Xor32, Xor32, Tap2)
  {
    forall b, c ensures Tap2(Xor32(b, c)) == Xor32(Tap2(b), Tap2(c)) {
      MasksAreAdditive(b, c);
      PickIsAdditive(b & 4 != 0, c & 4 != 0, 0x1ea1_19fa, Tap2(Xor32(b, c)), Tap2(b), Tap2(c));
    }
  }

  lemma Tap3IsAdditive()
    ensures Additive(Xor32, Xor32, Tap3)
  {
    forall b, c ensures Tap3(Xor32(b, c)) == Xor32(Tap3(b), Tap3(c)) {
      MasksAreAdditive(b, c);
      PickIsAdditive(b & 8 != 0, c & 8 != 0, 0x3d42_33dd, Tap3(Xor32(b, c)), Tap3(b), Tap3(c));
    }
  }

  lemma Tap4IsAdditive()
    ensures Additive(Xor32, Xor32, Tap4)
  {
    forall b, c ensures Tap4(Xor32(b, c)) == Xor32(Tap4(b), Tap4(c)) {
      MasksAreAdditive(b, c);
      PickIsAdditive(b & 16 != 0, c & 16 != 0, 0x2a14_62b3, Tap4(Xor32(b, c)), Tap4(b), Tap4(c));
    }
  }

  lemma Taps2IsAdditive()
    ensures Additive(Xor32, Xor32, Taps2)
  {
    Tap0IsAdditive();
    Tap1IsAdditive();
    Xor32IsAbelian();
    SumIsAdditive(Xor32, Xor32, Tap0, Tap1, Taps2);
  }

  lemma Taps3IsAdditive()
    ensures Additive(Xor32, Xor32, Taps3)
  {
    Taps2IsAdditive();
    Tap2IsAdditive();
    Xor32IsAbelian();
    SumIsAdditive(Xor32, Xor32, Taps2, Tap2, Taps3);
  }

  lemma Taps4IsAdditive()
    ensures Additive(Xor32, Xor32, Taps4)
  {
    Taps3IsAdditive();
    Tap3IsAdditive();
    Xor32IsAbelian();
    SumIsAdditive(Xor32, Xor32, Taps3, Tap3, Taps4);
  }

  lemma Taps5IsAdditive()
    ensures Additive(Xor32, Xor32, Taps5)
  {
    Taps4IsAdditive();
    Tap4IsAdditive();
    Xor32IsAbelian();
    SumIsAdditive(Xor32, Xor32, Taps4, Tap4, Taps5);
  }

  lemma {:induction false} PartsAreAdditive(c: bv32, d: bv32, v: bv5, w: bv5)
    ensures Shift(Xor32(c, d)) == Xor32(Shift(c), Shift(d))
    ensures Xor32(c, d) >> 25 == Xor32(c >> 25, d >> 25)
    ensures Extend(Xor5(v, w)) == Xor32(Extend(v), Extend(w))
  {
  }

  lemma FeedbackIsAdditive()
    ensures Additive(Xor32, Xor32, Feedback)
  {
    Taps5IsAdditive();
    forall c, d ensures Feedback(Xor32(c, d)) == Xor32(Feedback(c), Feedback(d)) {
      PartsAreAdditive(c, d, 0, 0);
    }
  }

  lemma ShiftAndExtendAreAdditive()
    ensures Additive(Xor32, Xor32, Shift) && Additive(Xor5, Xor32, Extend)
  {
    forall c, d ensures Shift(Xor32(c, d)) == Xor32(Shift(c), Shift(d)) { PartsAreAdditive(c, d, 0, 0); }
    forall v, w ensures Extend(Xor5(v, w)) == Xor32(Extend(v), Extend(w)) { PartsAreAdditive(0, 0, v, w); }
  }

  lemma StepIsLinear()
    ensures Linear(Xor32, Xor5, Step)
  {
    ShiftAndExtendAreAdditive();
    FeedbackIsAdditive();
    Xor32IsAbelian();
    ShiftFeedbackIsLinear(Xor32, Xor5, Shift, Extend, Feedback, Step);
  }

  // ---- Packing and survival ----

  lemma {:induction false} StepStaysInRange(c: bv32, v: bv5)
    ensures Step(c, v) < 0x4000_0000
  {
  }

  /** The zero-symbol step never loses a 30-bit register. */
  lemma {:induction false} StepKeepsNonzero(c: bv32)
    requires 0 < c < 0x4000_0000
    ensures Step(c, 0) != 0
  {
  }

  /** While nothing is shifted out, the register only packs symbols. */
  lemma {:induction false} StepPacks(c: bv32, v: bv5)
    requires c < 0x200_0000
    ensures Step(c, v) == (c << 5) | (v as bv32)
  {
  }

  /** One past the largest register that still has room for `room` more symbols. */
  function Capacity(room: nat): bv32
    requires room <= 5
  {
    if room == 0 then 0x4000_0000
    else if room == 1 then 0x200_0000
    else if room == 2 then 0x10_0000
    else if room == 3 then 0x8000
    else if room == 4 then 0x400
    else 0x20
  }

  lemma {:induction false} StepUsesRoom(c: bv32, v: bv5, room: nat)
    requires 0 < room && Fits(c, room)
    ensures Fits(Step(c, v), room - 1)
  {
    StepPacks(c, v);
    if room == 1 {} else if room == 2 {} else if room == 3 {} else if room == 4 {} else {}
  }

  predicate Fits(c: bv32, room: nat) { room <= 5 && 0 < c < Capacity(room) }

  lemma {:induction false} IdleFits(c: bv32)
    requires Fits(c, 0)
    ensures Fits(Step(c, 0), 0)
  {
    StepKeepsNonzero(c);
    StepStaysInRange(c, 0);
    Positive(Step(c, 0));
  }

  lemma {:induction false} Positive(c: bv32)
    ensures c != 0 ==> 0 < c
  {
  }

  /** A nonzero register with room for `room` free symbols, followed by zeros, never returns to zero. */
  lemma {:induction false} Survives(c: bv32, e: seq<bv5>, room: nat)
    requires Fits(c, room)
    requires forall i :: room <= i < |e| ==> e[i] == 0
    ensures Absorb(Step, c, e) != 0
  {
    forall r, v, n: nat | n > 0 && Fits(r, n) ensures Fits(Step(r, v), n - 1) { StepUsesRoom(r, v, n); }
    forall r | Fits(r, 0) ensures Fits(Step(r, 0), 0) { IdleFits(r); }
    var left := Endures(Step, Fits, 0, c, e, room);
  }

  lemma {:induction false} StepFromZero(v: bv5)
    ensures Step(0, v) == v as bv32
    ensures v == 0 <==> Step(0, v) == 0
    ensures Step(0, v) < 0x20
  {
    StepPacks(0, v);
  }

  /** From the zero register, an error confined to six symbols leaves a trace. */
  lemma {:induction false} ErrorLeavesTrace(e: seq<bv5>, start: nat)
    requires forall i :: 0 <= i < |e| && (i < start || start + 6 <= i) ==> e[i] == 0
    requires Absorb(Step, 0, e) == 0
    ensures forall i :: 0 <= i < |e| ==> e[i] == 0
    decreases |e|
  {
    if |e| > 0 {
      StepFromZero(e[0]);
      if e[0] == 0 {
        ErrorLeavesTrace(e[1..], if start == 0 then 0 else start - 1);
        assert forall i :: 0 < i < |e| ==> e[i] == e[1..][i - 1];
      } else {
        Survives(Step(0, e[0]), e[1..], 5);
      }
    }
  }

  lemma {:induction false} Xor5Cancels(v: bv5, w: bv5)
    ensures Xor5(v, w) == 0 <==> v == w
  {
  }

  /** Where two readings from one register end alike, their difference reads as zero. */
  lemma DifferenceReadsZero(c: bv32, a: seq<bv5>, b: seq<bv5>)
    requires |a| == |b| && Absorb(Step, c, a) == Absorb(Step, c, b)
    ensures Absorb(Step, 0, Combine(Xor5, a, b)) == 0
    ensures forall i :: 0 <= i < |a| ==> (Combine(Xor5, a, b)[i] == 0 <==> a[i] == b[i])
  {
    StepIsLinear();
    AbsorbIsLinear(Xor32, Xor5, Step, c, c, a, b);
    Xor32Laws(c, 0, 0);
    Xor32Laws(Absorb(Step, c, a), 0, 0);
    forall i | 0 <= i < |a| ensures Combine(Xor5, a, b)[i] == 0 <==> a[i] == b[i] {
      Xor5Cancels(a[i], b[i]);
    }
  }

  /** Burst detection at any length: two readings from one register that end alike cannot differ
      only inside six consecutive symbols. */
  lemma BurstIsDetected(c: bv32, a: seq<bv5>, b: seq<bv5>, start: nat)
    requires |a| == |b| && Absorb(Step, c, a) == Absorb(Step, c, b)
    requires forall i :: 0 <= i < |a| && (i < start || start + 6 <= i) ==> a[i] == b[i]
    ensures a == b
  {
    DifferenceReadsZero(c, a, b);
    ErrorLeavesTrace(Combine(Xor5, a, b), start);
  }

  // ---- Making and checking a checksum ----

  /** BIP-173 expansion of the human-readable part: high bits, a zero, low bits. */
  function HrpExpand(hrp: string): seq<bv5> {
    seq(|hrp|, i requires 0 <= i < |hrp| => (hrp[i] as nat / 32 % 32) as bv5) + [0] +
    seq(|hrp|, i requires 0 <= i < |hrp| => (hrp[i] as nat % 32) as bv5)
  }

  lemma {:induction false} SymbolIsNumber(n: nat)
    requires n < 32
    ensures (n as bv5) as nat == n
  {
  }

  /** The expansion spells every byte in two symbols, its high three bits in order, then its low five. */
  lemma ExpansionSpells(hrp: string, i: nat)
    requires i < |hrp| && hrp[i] < 256 as char
    ensures |HrpExpand(hrp)| == 2 * |hrp| + 1 && HrpExpand(hrp)[|hrp|] == 0
    ensures HrpExpand(hrp)[i] as nat * 32 + HrpExpand(hrp)[|hrp| + 1 + i] as nat == hrp[i] as nat
    ensures HrpExpand(hrp)[i] as nat < 8
  {
    var c := hrp[i] as nat;
    SymbolIsNumber(c / 32 % 32);
    SymbolIsNumber(c % 32);
    assert HrpExpand(hrp)[i] == (c / 32 % 32) as bv5 && HrpExpand(hrp)[|hrp| + 1 + i] == (c % 32) as bv5;
  }

  predicate VerifyChecksum(hrp: string, data: seq<bv5>) {
    Polymod(HrpExpand(hrp) + data) == BECH32M_CONST
  }

  const ZEROS: seq<bv5> := [0, 0, 0, 0, 0, 0]

  /** The six five-bit digits of a 30-bit register. */
  function Digits(pm: bv32): (r: seq<bv5>)
    ensures |r| == 6
  {
    [((pm >> 25) & 31) as bv5, ((pm >> 20) & 31) as bv5, ((pm >> 15) & 31) as bv5,
     ((pm >> 10) & 31) as bv5, ((pm >> 5) & 31) as bv5, (pm & 31) as bv5]
  }

  /** The digits that take the register to the constant when zeros would take it to `z`. */
  function SteeringDigits(z: bv32): (r: seq<bv5>)
    ensures |r| == 6
  {
    Digits(z ^ BECH32M_CONST)
  }

  function Checksum(hrp: string, data: seq<bv5>): (r: seq<bv5>)
    ensures |r| == 6
  {
    SteeringDigits(Polymod(HrpExpand(hrp) + data + ZEROS))
  }

  lemma {:induction false} DigitsPack(pm: bv32)
    requires pm < 0x4000_0000
    ensures Absorb(Step, 0, Digits(pm)) == pm
  {
    var d := Digits(pm);
    var s1 := Step(0, d[0]);
    StepPacks(0, d[0]);
    var s2 := Step(s1, d[1]);
    StepPacks(s1, d[1]);
    var s3 := Step(s2, d[2]);
    StepPacks(s2, d[2]);
    var s4 := Step(s3, d[3]);
    StepPacks(s3, d[3]);
    var s5 := Step(s4, d[4]);
    StepPacks(s4, d[4]);
    StepPacks(s5, d[5]);
    AbsorbSix(Step, 0, d);
  }

  lemma {:induction false} AbsorbStaysInRange(c: bv32, values: seq<bv5>)
    requires c < 0x4000_0000
    ensures Absorb(Step, c, values) < 0x4000_0000
    decreases |values|
  {
    if |values| > 0 {
      StepStaysInRange(c, values[0]);
      AbsorbStaysInRange(Step(c, values[0]), values[1..]);
    }
  }

  lemma {:induction false} RangeIsClosed(a: bv32, b: bv32)
    requires a < 0x4000_0000 && b < 0x4000_0000
    ensures a ^ b < 0x4000_0000
  {
  }

  lemma {:induction false} ZerosAreNeutral(d: seq<bv5>)
    requires |d| == 6
    ensures Combine(Xor5, ZEROS, d) == d
  {
    forall i | 0 <= i < 6 ensures Xor5(ZEROS[i], d[i]) == d[i] {
    }
  }

  lemma {:induction false} Xor32Returns(z: bv32, k: bv32)
    ensures Xor32(z, z ^ k) == k
  {
  }

  /** Six digits turn any 30-bit register into the constant. */
  lemma DigitsSteer(c: bv32)
    requires c < 0x4000_0000
    ensures Absorb(Step, c, SteeringDigits(Absorb(Step, c, ZEROS))) == BECH32M_CONST
  {
    var z := Absorb(Step, c, ZEROS);
    AbsorbStaysInRange(c, ZEROS);
    SteeringDigitsPack(z);
    ZerosAreNeutral(SteeringDigits(z));
    SteerWord(c, ZEROS, SteeringDigits(z));
    Xor32Returns(z, BECH32M_CONST);
  }

  lemma SteeringDigitsPack(z: bv32)
    requires z < 0x4000_0000
    ensures Absorb(Step, 0, SteeringDigits(z)) == z ^ BECH32M_CONST
  {
    RangeIsClosed(z, BECH32M_CONST);
    DigitsPack(z ^ BECH32M_CONST);
  }

  lemma SteerWord(c: bv32, zeros: seq<bv5>, word: seq<bv5>)
    requires |zeros| == |word| && Combine(Xor5, zeros, word) == word
    ensures Absorb(Step, c, word) == Xor32(Absorb(Step, c, zeros), Absorb(Step, 0, word))
  {
    Xor32Laws(c, 0, 0);
    StepIsLinear();
    Steer(Xor32, Xor5, Step, c, 0, zeros, word);
  }

  lemma PrefixIsCompleted(prefix: seq<bv5>)
    ensures Absorb(Step, 1, prefix + SteeringDigits(Absorb(Step, 1, prefix + ZEROS))) == BECH32M_CONST
  {
    AbsorbStaysInRange(1, prefix);
    DigitsSteer(Absorb(Step, 1, prefix));
    SteerAfterPrefix(Step, SteeringDigits, 1, prefix, ZEROS, BECH32M_CONST);
  }

  /** Appending `Checksum` always verifies, under any human-readable part. */
  lemma ChecksumVerifies(hrp: string, data: seq<bv5>)
    ensures VerifyChecksum(hrp, data + Checksum(hrp, data))
  {
    var prefix := HrpExpand(hrp) + data;
    PrefixIsCompleted(prefix);
    assert prefix + Checksum(hrp, data) == HrpExpand(hrp) + (data + Checksum(hrp, data));
  }

  lemma {:induction false} VectorSteps()
    ensures Step(1, 3) == 0x23 && Step(0x23, 0) == 0x460 && Step(0x460, 1) == 0x8c01 && Step(0x8c01, 31) == 0x11803f
    ensures Step(0x11803f, 0) == 0x23007e0 && Step(0x23007e0, 9) == 0x3d6aabbb && Step(0x3d6aabbb, 19) == 0x2f2b18a
    ensures Step(0x2f2b18a, 17) == 0x253c66e3 && Step(0x253c66e3, 29) == 0x2bc830a3
  {
  }

  lemma {:induction false} VectorTrace() returns (v: seq<bv5>)
    ensures v == [3, 0, 1, 31, 0, 9, 19, 17, 29] && Absorb(Step, 1, v) == BECH32M_CONST
  {
    v := [3, 0, 1, 31, 0, 9, 19, 17, 29];
    var c: seq<bv32> := [1, 0x23, 0x460, 0x8c01, 0x11803f, 0x23007e0, 0x3d6aabbb, 0x2f2b18a, 0x253c66e3, 0x2bc830a3];
    VectorSteps();
    AbsorbTrace(Step, v, c);
  }

  /** The shortest test vector of BIP-350: human-readable part `a`, no data, symbols `lqfn3a`. */
  lemma ShortestVector() returns (tail: seq<bv5>)
    ensures tail == [31, 0, 9, 19, 17, 29] && VerifyChecksum("a", tail)
  {
    tail := [31, 0, 9, 19, 17, 29];
    var v := VectorTrace();
    assert HrpExpand("a") == [3, 0, 1];
    assert HrpExpand("a") + tail == v;
  }

  /** No other six symbols do: the checksum of a payload is unique. */
  lemma ChecksumIsUnique(hrp: string, data: seq<bv5>, tail: seq<bv5>)
    requires |tail| == 6 && VerifyChecksum(hrp, data + tail)
    ensures tail == Checksum(hrp, data)
  {
    ChecksumVerifies(hrp, data);
    TwoTokensDifferWidely(hrp, data + tail, data + Checksum(hrp, data), |data|);
    assert (data + tail)[|data|..] == tail && (data + Checksum(hrp, data))[|data|..] == Checksum(hrp, data);
  }

  lemma ChecksumIsTheOnlyTail(hrp: string, data: seq<bv5>, digits: seq<bv5>)
    requires digits == Checksum(hrp, data)
    ensures VerifyChecksum(hrp, data + digits)
    ensures forall tail :: |tail| == 6 && VerifyChecksum(hrp, data + tail) ==> tail == digits
  {
    ChecksumVerifies(hrp, data);
    forall tail | |tail| == 6 && VerifyChecksum(hrp, data + tail) ensures tail == digits {
      ChecksumIsUnique(hrp, data, tail);
    }
  }

  /** Two equal-length symbol strings that verify under one human-readable part and agree outside
      six consecutive symbols are equal. */
  lemma TwoTokensDifferWidely(hrp: string, a: seq<bv5>, b: seq<bv5>, start: nat)
    requires |a| == |b| && VerifyChecksum(hrp, a) && VerifyChecksum(hrp, b)
    requires forall i :: 0 <= i < |a| && (i < start || start + 6 <= i) ==> a[i] == b[i]
    ensures a == b
  {
    var h := HrpExpand(hrp);
    AbsorbAppend(Step, 1, h, a);
    AbsorbAppend(Step, 1, h, b);
    BurstIsDetected(Polymod(h), a, b, start);
  }

  // ---- The source's loops ----

  /** `(b >> i) & 1 == 1`, for the five bits the register shifts out. */
  predicate BitSet(b: bv32, i: nat)
    requires i < 5
  {
    if i == 0 then b & 1 != 0
    else if i == 1 then b & 2 != 0
    else if i == 2 then b & 4 != 0
    else if i == 3 then b & 8 != 0
    else b & 16 != 0
  }

  function AddWord(chk: bv32, selected: bool, word: bv32): bv32 {
    if selected then Xor32(chk, word) else chk
  }

  lemma {:induction false} Xor32Associates(a: bv32, b: bv32, c: bv32)
    ensures Xor32(a, Xor32(b, c)) == Xor32(Xor32(a, b), c)
  {
    Xor32IsAbelian();
    assert At(a, b, c);
  }

  lemma {:induction false} TapIsAdded(shifted: bv32, sum: bv32, tap: bv32, selected: bool, word: bv32)
    requires tap == if selected then word else 0
    ensures Xor32(shifted, Xor32(sum, tap)) == AddWord(Xor32(shifted, sum), selected, word)
  {
    if selected {
      Xor32Associates(shifted, sum, word);
    } else {
      Xor32Laws(sum, 0, 0);
    }
  }

  lemma FirstTapIsAdded(shifted: bv32, b: bv32)
    ensures Xor32(shifted, Tap0(b)) == AddWord(shifted, BitSet(b, 0), GEN[0])
  {
    Xor32Laws(shifted, 0, 0);
  }

  /** The values the inner loop passes through, one conditional word at a time. */
  lemma FeedbackTrace(before: bv32, v: bv5) returns (xs: seq<bv32>)
    ensures |xs| == 6 && xs[0] == ((before & 0x1ff_ffff) << 5) ^ (v as bv32) && xs[5] == Step(before, v)
    ensures forall i :: 0 <= i < 5 ==> xs[i + 1] == AddWord(xs[i], BitSet(before >> 25, i), GEN[i])
  {
    var shifted, b := Xor32(Shift(before), Extend(v)), before >> 25;
    xs := [shifted, Xor32(shifted, Tap0(b)), Xor32(shifted, Taps2(b)), Xor32(shifted, Taps3(b)),
           Xor32(shifted, Taps4(b)), Xor32(shifted, Taps5(b))];
    FirstTapIsAdded(shifted, b);
    TapIsAdded(shifted, Tap0(b), Tap1(b), BitSet(b, 1), GEN[1]);
    TapIsAdded(shifted, Taps2(b), Tap2(b), BitSet(b, 2), GEN[2]);
    TapIsAdded(shifted, Taps3(b), Tap3(b), BitSet(b, 3), GEN[3]);
    TapIsAdded(shifted, Taps4(b), Tap4(b), BitSet(b, 4), GEN[4]);
  }

  /** The two nested loops compute `Polymod`. */
  method ComputePolymod(values: seq<bv5>) returns (chk: bv32)
    ensures chk == Polymod(values)
  {
    chk := 1;
    for n := 0 to |values|
      invariant Absorb(Step, chk, values[n..]) == Polymod(values)
    {
      chk := ComputeStep(chk, values[n]);
    }
  }

  method ComputeStep(before: bv32, v: bv5) returns (chk: bv32)
    ensures chk == Step(before, v)
  {
    var b := before >> 25;
    ghost var xs := FeedbackTrace(before, v);
    chk := ((before & 0x1ff_ffff) << 5) ^ (v as bv32);
    for i := 0 to 5
      invariant chk == xs[i]
    {
      if BitSet(b, i) {
        chk := Xor32(chk, GEN[i]);
      }
    }
  }

  /** Six digits, the ones that make the data verify. */
  method ComputeChecksum(hrp: string, data: seq<bv5>) returns (digits: seq<bv5>)
    ensures digits == Checksum(hrp, data) && VerifyChecksum(hrp, data + digits)
    ensures forall tail :: |tail| == 6 && VerifyChecksum(hrp, data + tail) ==> tail == digits
  {
    var pm := ComputePolymod(HrpExpand(hrp) + data + ZEROS);
    digits := Digits(pm ^ BECH32M_CONST);
    ChecksumIsTheOnlyTail(hrp, data, digits);
  }
}
