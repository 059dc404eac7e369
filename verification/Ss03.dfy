/**
 The manual copy/paste codec (`src/signaling/manual.rs`):
 JSON, raw DEFLATE, "mag!", a time-bucketed xorshift keystream, "SS03", base64.
 JSON, DEFLATE and base64 are library calls; they are parameters that round-trip.
 */
module Ss03 {
  import opened Common

  const MAGIC_HEADER: seq<bv8> := [0x53, 0x53, 0x30, 0x33]
  const INNER_MAGIC: seq<bv8> := [0x6d, 0x61, 0x67, 0x21]
  const BASE_SEED: bv32 := 0x9e37_79b9
  const PUBLIC_KEY_LEN := 65
  /** The one non-zero seed whose first four keystream bytes are all zero. */
  const KERNEL: bv32 := 0xE4C3_7601

  // ---------------------------------------------------------------- 32-bit steps

  // Proofs below hide these definitions and reason with the laws that follow them:
  // the solver is quick on each law and slow on their compositions bit by bit.

  function Xor(a: bv32, b: bv32): bv32 { a ^ b }

  /** The shifts the two generators use, and their doubles; `Out` shifts every bit out. */
  datatype Shift = L5 | L10 | L13 | L20 | L26 | R13 | R16 | R17 | R26 | Out

  function Double(k: Shift): Shift {
    match k
    case L5 => L10
    case L10 => L20
    case L13 => L26
    case R13 => R26
    case _ => Out
  }

  function Shifted(x: bv32, k: Shift): bv32 {
    match k
    case L5 => x << 5
    case L10 => x << 10
    case L13 => x << 13
    case L20 => x << 20
    case L26 => x << 26
    case R13 => x >> 13
    case R16 => x >> 16
    case R17 => x >> 17
    case R26 => x >> 26
    case Out => 0
  }

  /** The step `x ^= x << n` or `x ^= x >> n`. */
  function Mix(x: bv32, k: Shift): bv32 {
    Xor(x, Shifted(x, k))
  }

  lemma XorAssoc(a: bv32, b: bv32, c: bv32) ensures Xor(Xor(a, b), c) == Xor(a, Xor(b, c)) {}
  lemma XorComm(a: bv32, b: bv32) ensures Xor(a, b) == Xor(b, a) {}
  lemma XorUnit(a: bv32) ensures Xor(a, 0) == a && Xor(a, a) == 0 {}

  lemma XorL5(a: bv32, b: bv32) ensures Shifted(Xor(a, b), L5) == Xor(Shifted(a, L5), Shifted(b, L5)) {}
  lemma XorL10(a: bv32, b: bv32) ensures Shifted(Xor(a, b), L10) == Xor(Shifted(a, L10), Shifted(b, L10)) {}
  lemma XorL13(a: bv32, b: bv32) ensures Shifted(Xor(a, b), L13) == Xor(Shifted(a, L13), Shifted(b, L13)) {}
  lemma XorL20(a: bv32, b: bv32) ensures Shifted(Xor(a, b), L20) == Xor(Shifted(a, L20), Shifted(b, L20)) {}
  lemma XorL26(a: bv32, b: bv32) ensures Shifted(Xor(a, b), L26) == Xor(Shifted(a, L26), Shifted(b, L26)) {}
  lemma XorR13(a: bv32, b: bv32) ensures Shifted(Xor(a, b), R13) == Xor(Shifted(a, R13), Shifted(b, R13)) {}
  lemma XorR16(a: bv32, b: bv32) ensures Shifted(Xor(a, b), R16) == Xor(Shifted(a, R16), Shifted(b, R16)) {}
  lemma XorR17(a: bv32, b: bv32) ensures Shifted(Xor(a, b), R17) == Xor(Shifted(a, R17), Shifted(b, R17)) {}
  lemma XorR26(a: bv32, b: bv32) ensures Shifted(Xor(a, b), R26) == Xor(Shifted(a, R26), Shifted(b, R26)) {}

  lemma ShiftedXor(a: bv32, b: bv32, k: Shift)
    ensures Shifted(Xor(a, b), k) == Xor(Shifted(a, k), Shifted(b, k))
  {
    NothingLeft(a); NothingLeft(b); NothingLeft(Xor(a, b)); XorUnit(0);
    hide Xor; hide Shifted;
    match k {
      case L5 => XorL5(a, b);
      case L10 => XorL10(a, b);
      case L13 => XorL13(a, b);
      case L20 => XorL20(a, b);
      case L26 => XorL26(a, b);
      case R13 => XorR13(a, b);
      case R16 => XorR16(a, b);
      case R17 => XorR17(a, b);
      case R26 => XorR26(a, b);
      case Out =>
    }
  }

  lemma ShiftedTwice(a: bv32, k: Shift)
    ensures Shifted(Shifted(a, k), k) == Shifted(a, Double(k))
  {
    match k {
      case L5 => case L10 => case L13 => case L20 => case L26 =>
      case R13 => case R16 => case R17 => case R26 => case Out =>
    }
  }

  lemma XorInterchange(a: bv32, b: bv32, c: bv32, d: bv32)
    ensures Xor(Xor(a, b), Xor(c, d)) == Xor(Xor(a, c), Xor(b, d))
  {
    hide *;
    XorAssoc(a, b, Xor(c, d)); XorAssoc(b, c, d); XorComm(b, c); XorAssoc(c, b, d); XorAssoc(a, c, Xor(b, d));
  }

  lemma XorTelescopes(a: bv32, b: bv32, c: bv32)
    ensures Xor(Xor(a, b), Xor(b, c)) == Xor(a, c)
  {}

  lemma XorZero(a: bv32, b: bv32)
    ensures Xor(a, b) == 0 <==> a == b
  {
    hide *;
    XorUnit(a); XorUnit(b); XorAssoc(a, a, b); XorComm(0, b);
  }

  /** Repeating a step doubles its shift, so every step has an inverse made of steps. */
  lemma MixTwice(x: bv32, k: Shift)
    ensures Mix(Mix(x, k), k) == Mix(x, Double(k))
    ensures Mix(x, Out) == x
  {
    hide Xor; hide Shifted;
    var p := Shifted(x, k);
    ShiftedXor(x, p, k);
    ShiftedTwice(x, k);
    XorTelescopes(x, p, Shifted(x, Double(k)));
    assert Shifted(x, Out) == 0 by { NothingLeft(x); }
    XorUnit(x);
  }

  lemma NothingLeft(x: bv32) ensures Shifted(x, Out) == 0 {}

  lemma MixLinear(s: bv32, t: bv32, k: Shift)
    ensures Mix(Xor(s, t), k) == Xor(Mix(s, k), Mix(t, k))
  {
    hide Xor; hide Shifted;
    ShiftedXor(s, t, k);
    XorInterchange(s, t, Shifted(s, k), Shifted(t, k));
  }

  lemma SwapDouble(x: bv32, k: Shift)
    ensures Shifted(Shifted(x, Double(k)), k) == Shifted(Shifted(x, k), Double(k))
  {
    hide Shifted;
    ShiftedTwice(x, k);
    ShiftedTwice(Shifted(x, k), k);
  }

  lemma SwapL20L5(x: bv32)
    ensures Shifted(Shifted(x, L20), L5) == Shifted(Shifted(x, L5), L20)
  {}

  /** Steps in the same direction commute. */
  lemma MixCommute(x: bv32, k: Shift, l: Shift)
    requires Shifted(Shifted(x, k), l) == Shifted(Shifted(x, l), k)
    ensures Mix(Mix(x, k), l) == Mix(Mix(x, l), k)
  {
    hide Xor; hide Shifted;
    var p, q := Shifted(x, k), Shifted(x, l);
    ShiftedXor(x, p, l);
    ShiftedXor(x, q, k);
    XorInterchange(x, p, q, Shifted(p, l));
  }

  // ---------------------------------------------------------------- seeds

  function Mul1(x: bv32): bv32 { x * 0x85eb_ca6b }
  function Mul2(x: bv32): bv32 { x * 0xc2b2_ae35 }
  function Div1(x: bv32): bv32 { x * 0xa5cb_9243 }
  function Div2(x: bv32): bv32 { x * 0x7ed1_b41d }

  /** The finalizer applied to `BASE_SEED ^ bucket`, in 32-bit wrapping arithmetic. */
  function SeedForBucket(bucket: bv32): bv32 {
    var h := Xor(BASE_SEED, bucket);
    Mix(Mul2(Mix(Mul1(Mix(h, R16)), R13)), R16)
  }

  /** Undoes the finalizer step by step. */
  function BucketOfSeed(seed: bv32): bv32 {
    var h := Mix(Div1(Mix(Mix(Div2(Mix(seed, R16)), R13), R26)), R16);
    Xor(BASE_SEED, h)
  }

  /** A known value of the finalizer: MurmurHash3 takes 0x12345678 to 0xe37cd1bc. */
  lemma SeedVector()
    ensures SeedForBucket(0x8c032fc1) == 0xe37cd1bc
  {
    hide *;
    SeedStep0();
    SeedUnfolds(0x8c032fc1);
    SeedStep1(); SeedStep2(); SeedStep3(); SeedStep4(); SeedStep5();
  }

  lemma SeedUnfolds(bucket: bv32)
    ensures SeedForBucket(bucket) == Mix(Mul2(Mix(Mul1(Mix(Xor(BASE_SEED, bucket), R16)), R13)), R16)
  {
    hide Mix, Mul1, Mul2, Xor;
  }

  lemma SeedStep0() ensures Xor(BASE_SEED, 0x8c032fc1) == 0x12345678 {}
  lemma SeedStep1() ensures Mix(0x12345678, R16) == 0x1234444c {}
  lemma SeedStep2() ensures Mul1(0x1234444c) == 0x078083c4 {}
  lemma SeedStep3() ensures Mix(0x078083c4, R13) == 0x0780bfc0 {}
  lemma SeedStep4() ensures Mul2(0x0780bfc0) == 0xe37c32c0 {}
  lemma SeedStep5() ensures Mix(0xe37c32c0, R16) == 0xe37cd1bc {}

  lemma MulDefinitions(x: bv32)
    ensures Mul1(x) == x * 0x85eb_ca6b && Mul2(x) == x * 0xc2b2_ae35
    ensures Div1(x) == x * 0xa5cb_9243 && Div2(x) == x * 0x7ed1_b41d
  {}

  lemma MulRaw(x: bv32)
    ensures Div1(x * 0x85eb_ca6b) == x && Div2(x * 0xc2b2_ae35) == x
    ensures Mul1(x * 0xa5cb_9243) == x && Mul2(x * 0x7ed1_b41d) == x
  {}

  lemma MulInverses(x: bv32)
    ensures Div1(Mul1(x)) == x && Div2(Mul2(x)) == x && Mul1(Div1(x)) == x && Mul2(Div2(x)) == x
  {
    hide *;
    MulDefinitions(x);
    MulRaw(x);
  }

  lemma XorSelf(a: bv32, b: bv32)
    ensures Xor(a, Xor(a, b)) == b
  {}

  /** The seed function is a bijection on 32-bit buckets, with `BucketOfSeed` its inverse. */
  lemma SeedIsBijective(x: bv32)
    ensures BucketOfSeed(SeedForBucket(x)) == x
    ensures SeedForBucket(BucketOfSeed(x)) == x
  {
    hide Xor; hide Mix; hide Shifted; hide Mul1; hide Mul2; hide Div1; hide Div2;
    var h0 := Xor(BASE_SEED, x);
    var h1 := Mul1(Mix(h0, R16));
    var h2 := Mul2(Mix(h1, R13));
    MixTwice(h2, R16); MulInverses(Mix(h1, R13)); MixTwice(h1, R13); MixTwice(h1, R26);
    MulInverses(Mix(h0, R16)); MixTwice(h0, R16); XorSelf(BASE_SEED, x);
    MixTwice(h1, Out);

    var g2 := Div2(Mix(x, R16));
    var g1 := Mix(Mix(g2, R13), R26);
    var g0 := Mix(Div1(g1), R16);
    XorSelf(BASE_SEED, g0); MixTwice(Div1(g1), R16); MulInverses(g1); SwapDouble(Mix(g2, R13), R13);
    MixCommute(Mix(g2, R13), R26, R13); MixTwice(g2, R13);
    MixTwice(g2, R26); MulInverses(Mix(x, R16)); MixTwice(x, R16);
  }

  /** The all-zero generator state arises for exactly one bucket. */
  lemma ZeroSeedBucket(bucket: bv32)
    ensures SeedForBucket(bucket) == 0 <==> bucket == BASE_SEED
  {}

  // ---------------------------------------------------------------- keystream

  function XorShift32(s: bv32): bv32 {
    Mix(Mix(Mix(s, L13), R17), L5)
  }

  function UnXorShift32(s: bv32): bv32 {
    Mix(Mix(Mix(Mix(Mix(Mix(s, L5), L10), L20), R17), L13), L26)
  }

  /** One generator step is a bijection on 32-bit states. */
  /** A known value of xorshift32. */
  lemma XorShiftVector()
    ensures XorShift32(0x12345678) == 0x87985aa5
  {
    hide *;
    XorShiftStep1(); XorShiftStep2(); XorShiftStep3();
    XorShiftUnfolds(0x12345678);
  }

  lemma XorShiftUnfolds(s: bv32)
    ensures XorShift32(s) == Mix(Mix(Mix(s, L13), R17), L5)
  {
    hide Mix;
  }

  lemma XorShiftStep1() ensures Mix(0x12345678, L13) == 0x98fb5678 {}
  lemma XorShiftStep2() ensures Mix(0x98fb5678, R17) == 0x98fb1a05 {}
  lemma XorShiftStep3() ensures Mix(0x98fb1a05, L5) == 0x87985aa5 {}

  lemma XorShiftIsBijective(s: bv32)
    ensures UnXorShift32(XorShift32(s)) == s
    ensures XorShift32(UnXorShift32(s)) == s
  {
    hide Mix; hide Shifted;
    var a := Mix(s, L13);
    var b := Mix(a, R17);
    MixTwice(b, L5); MixTwice(b, L10); MixTwice(b, L20); MixTwice(b, Out);
    MixTwice(a, R17); MixTwice(s, L13); MixTwice(s, L26);
    var d := Mix(Mix(Mix(s, L5), L10), L20);
    var e := Mix(d, R17);
    SwapDouble(Mix(e, L13), L13);
    MixCommute(Mix(e, L13), L26, L13);
    MixTwice(e, L13); MixTwice(e, L26); MixTwice(d, R17);
    SwapL20L5(Mix(Mix(s, L5), L10));
    SwapDouble(Mix(s, L5), L5);
    MixCommute(Mix(Mix(s, L5), L10), L20, L5);
    MixCommute(Mix(s, L5), L10, L5);
    MixTwice(s, L5); MixTwice(s, L10); MixTwice(s, L20);
  }

  lemma StepIsLinear(s: bv32, t: bv32)
    ensures XorShift32(Xor(s, t)) == Xor(XorShift32(s), XorShift32(t))
  {
    hide Xor; hide Mix;
    MixLinear(s, t, L13);
    MixLinear(Mix(s, L13), Mix(t, L13), R17);
    MixLinear(Mix(Mix(s, L13), R17), Mix(Mix(t, L13), R17), L5);
  }

  /** Generator state after n steps from `seed`. */
  function State(seed: bv32, n: nat): bv32 {
    if n == 0 then seed else XorShift32(State(seed, n - 1))
  }

  /** Keystream byte i; the seed itself is never used. */
  function Pad(seed: bv32, i: nat): bv8 {
    LowByte(State(seed, i + 1))
  }

  function LowByte(s: bv32): bv8 { (s & 0xff) as bv8 }

  lemma LowByteIsLinear(s: bv32, t: bv32)
    ensures LowByte(Xor(s, t)) == LowByte(s) ^ LowByte(t)
  {}

  lemma XorZero8(a: bv8, b: bv8)
    ensures a ^ b == 0 <==> a == b
  {}

  lemma {:induction false} StateIsLinear(s: bv32, t: bv32, n: nat)
    ensures State(Xor(s, t), n) == Xor(State(s, n), State(t, n))
  {
    hide Xor; hide XorShift32;
    if n > 0 {
      StateIsLinear(s, t, n - 1);
      StepIsLinear(State(s, n - 1), State(t, n - 1));
    }
  }

  /** The keystream is GF(2)-linear in the seed, byte by byte. */
  lemma PadIsLinear(s: bv32, t: bv32, i: nat)
    ensures Pad(Xor(s, t), i) == Pad(s, i) ^ Pad(t, i)
  {
    hide State; hide Xor; hide LowByte;
    StateIsLinear(s, t, i + 1);
    LowByteIsLinear(State(s, i + 1), State(t, i + 1));
  }

  lemma HeadKernel(d: bv32)
    ensures var s1 := XorShift32(d); var s2 := XorShift32(s1); var s3 := XorShift32(s2); var s4 := XorShift32(s3);
            (LowByte(s1) == 0 && LowByte(s2) == 0 && LowByte(s3) == 0 && LowByte(s4) == 0)
            <==> (d == 0 || d == KERNEL)
  {}

  lemma FifthByte()
    ensures LowByte(XorShift32(XorShift32(XorShift32(XorShift32(XorShift32(KERNEL)))))) != 0
  {}

  lemma Unrolled(d: bv32)
    ensures State(d, 1) == XorShift32(d)
    ensures State(d, 2) == XorShift32(XorShift32(d))
    ensures State(d, 3) == XorShift32(XorShift32(XorShift32(d)))
    ensures State(d, 4) == XorShift32(XorShift32(XorShift32(XorShift32(d))))
    ensures State(d, 5) == XorShift32(XorShift32(XorShift32(XorShift32(XorShift32(d)))))
  {
    hide XorShift32;
    assert State(d, 1) == XorShift32(State(d, 0));
    assert State(d, 2) == XorShift32(State(d, 1));
    assert State(d, 3) == XorShift32(State(d, 2));
    assert State(d, 4) == XorShift32(State(d, 3));
    assert State(d, 5) == XorShift32(State(d, 4));
  }

  /** Two seeds agree on the four bytes the cheap check looks at exactly when equal or one kernel apart. */
  lemma HeadCollision(s: bv32, t: bv32)
    ensures (forall i | 0 <= i < 4 :: Pad(s, i) == Pad(t, i)) <==> (s == t || Xor(s, t) == KERNEL)
  {
    var d := Xor(s, t);
    XorZero(s, t);
    hide Xor; hide XorShift32; hide LowByte; hide State;
    forall i | 0 <= i < 4
      ensures Pad(s, i) == Pad(t, i) <==> LowByte(State(d, i + 1)) == 0
    {
      PadIsLinear(s, t, i);
      XorZero8(Pad(s, i), Pad(t, i));
    }
    Unrolled(d);
    HeadKernel(d);
    assert (forall i | 0 <= i < 4 :: Pad(s, i) == Pad(t, i)) <==>
           (Pad(s, 0) == Pad(t, 0) && Pad(s, 1) == Pad(t, 1) && Pad(s, 2) == Pad(t, 2) && Pad(s, 3) == Pad(t, 3));
  }

  /** Five keystream bytes determine the seed. */
  lemma FiveBytesDetermineSeed(s: bv32, t: bv32)
    ensures (forall i | 0 <= i < 5 :: Pad(s, i) == Pad(t, i)) <==> s == t
  {
    hide Xor; hide XorShift32; hide LowByte; hide State;
    HeadCollision(s, t);
    if Xor(s, t) == KERNEL {
      PadIsLinear(s, t, 4);
      XorZero8(Pad(s, 4), Pad(t, 4));
      Unrolled(KERNEL);
      FifthByte();
      assert Pad(s, 4) != Pad(t, 4);
    }
  }

  // ---------------------------------------------------------------- obfuscation

  function Xor8(a: bv8, b: bv8): bv8 { a ^ b }

  function Obfuscate(data: seq<bv8>, seed: bv32): (out: seq<bv8>)
  {
    seq(|data|, i requires 0 <= i < |data| => Xor8(data[i], Pad(seed, i)))
  }

  method XorObfuscate(data: seq<bv8>, seed: bv32) returns (out: seq<bv8>)
    ensures |out| == |data|
    ensures forall i | 0 <= i < |data| :: out[i] == Xor8(data[i], Pad(seed, i))
  {
    hide Xor8; hide XorShift32; hide LowByte;
    var state := seed;
    out := [];
    for k := 0 to |data|
      invariant state == State(seed, k)
      invariant |out| == k
      invariant forall i | 0 <= i < k :: out[i] == Xor8(data[i], Pad(seed, i))
    {
      state := XorShift32(state);
      out := out + [Xor8(data[k], LowByte(state))];
    }
  }

  lemma Xor8Twice(a: bv8, k: bv8, l: bv8)
    ensures Xor8(Xor8(a, k), k) == a
    ensures Xor8(Xor8(a, k), l) == a <==> k == l
    ensures Xor8(a, k) == a <==> k == 0
  {}

  /** Obfuscating twice under one seed is the identity. */
  lemma ObfuscateIsInvolution(data: seq<bv8>, seed: bv32)
    ensures Obfuscate(Obfuscate(data, seed), seed) == data
  {}

  lemma {:induction false} ZeroState(n: nat)
    ensures State(0, n) == 0
  {
    if n > 0 {
      ZeroState(n - 1);
      assert XorShift32(0) == 0;
    }
  }

  lemma ZeroPad(i: nat)
    ensures Pad(0, i) == 0
  {
    ZeroState(i + 1);
  }

  /** Obfuscation leaves five or more bytes unchanged for exactly one bucket. */
  lemma PlainBucket(data: seq<bv8>, bucket: bv32)
    requires |data| >= 5
    ensures Obfuscate(data, SeedForBucket(bucket)) == data <==> bucket == BASE_SEED
  {
    hide Xor8; hide Pad; hide SeedForBucket;
    var seed := SeedForBucket(bucket);
    forall i: nat | i < |data|
      ensures Pad(0, i) == 0
      ensures Obfuscate(data, seed)[i] == data[i] <==> Pad(seed, i) == 0
    {
      ZeroPad(i);
      Xor8Twice(data[i], Pad(seed, i), 0);
    }
    ZeroSeedBucket(bucket);
    FiveBytesDetermineSeed(seed, 0);
    if Obfuscate(data, seed) == data {
      forall i | 0 <= i < 5 ensures Pad(seed, i) == Pad(0, i) {
        assert Obfuscate(data, seed)[i] == data[i];
      }
    }
  }

  /** Checking the four head bytes alone agrees with de-obfuscating everything, and it passes under
      another seed exactly when that seed is equal or one kernel away. */
  lemma HeadCheck(inner: seq<bv8>, seed: bv32, other: bv32)
    requires |inner| >= 4
    ensures Obfuscate(Obfuscate(inner, seed)[..4], other) == Obfuscate(Obfuscate(inner, seed), other)[..4]
    ensures Obfuscate(Obfuscate(inner, seed)[..4], other) == inner[..4] <==> (seed == other || Xor(seed, other) == KERNEL)
  {
    hide Xor; hide Pad; hide Xor8;
    var head := Obfuscate(Obfuscate(inner, seed)[..4], other);
    HeadCollision(seed, other);
    forall i | 0 <= i < 4 ensures head[i] == inner[i] <==> Pad(seed, i) == Pad(other, i) {
      Xor8Twice(inner[i], Pad(seed, i), Pad(other, i));
    }
    if head == inner[..4] {
      forall i | 0 <= i < 4 ensures Pad(seed, i) == Pad(other, i) {
        assert head[i] == inner[..4][i];
      }
    }
  }

  // ---------------------------------------------------------------- codec

  datatype Payload = Payload(
    payloadType: string, sdp: string, candidates: seq<string>, createdAt: nat, publicKey: seq<bv8>,
    fileName: Option<string>, fileSize: Option<nat>, fileSizeExact: Option<bool>,
    mimeType: Option<string>, salt: Option<seq<bv8>>)

  datatype Error = BadBase64 | BadHeader | Invalid | Undecodable

  /** The library codecs the format is built from. */
  datatype Codec = Codec(
    base64: seq<bv8> -> string, unbase64: string -> Option<seq<bv8>>,
    deflate: seq<bv8> -> seq<bv8>, inflate: seq<bv8> -> Option<seq<bv8>>,
    json: Payload -> seq<bv8>, unjson: seq<bv8> -> Option<Payload>)
  {
    ghost predicate RoundTrips() {
      && (forall b :: unbase64(base64(b)) == Some(b) && forall c | c in base64(b) :: !IsWhitespace(c))
      && (forall b :: inflate(deflate(b)) == Some(b))
      && (forall p :: unjson(json(p)) == Some(p))
    }
  }

  /** `SignalingPayload::validate`. */
  predicate Valid(p: Payload) {
    (p.payloadType == "offer" || p.payloadType == "answer") && |p.publicKey| == PUBLIC_KEY_LEN
  }

  function Strip(s: string): string {
    if s == "" then "" else (if IsWhitespace(s[0]) then "" else [s[0]]) + Strip(s[1..])
  }

  function Previous(bucket: bv32): bv32 {
    if bucket == 0 then 0 else bucket - 1
  }

  /** What one seed makes of the obfuscated body: the search goes on at None. */
  function Attempt(c: Codec, body: seq<bv8>, seed: bv32): Option<Payload>
    requires |body| >= 4
  {
    if Obfuscate(body[..4], seed) != INNER_MAGIC then None
    else match c.inflate(Obfuscate(body, seed)[4..])
      case None => None
      case Some(text) => c.unjson(text)
  }

  function Checked(p: Payload): Result<Payload, Error> {
    if Valid(p) then Ok(p) else Err(Invalid)
  }

  /** The payload `decode` returns in `bucket`. */
  function Decoded(c: Codec, input: string, bucket: bv32): Result<Payload, Error> {
    match c.unbase64(Strip(input))
    case None => Err(BadBase64)
    case Some(binary) =>
      if |binary| < 8 || binary[..4] != MAGIC_HEADER then Err(BadHeader)
      else match Attempt(c, binary[4..], SeedForBucket(bucket))
        case Some(p) => Checked(p)
        case None =>
          match Attempt(c, binary[4..], SeedForBucket(Previous(bucket)))
          case Some(p) => Checked(p)
          case None => Err(Undecodable)
  }

  function Encoded(c: Codec, payload: Payload, bucket: bv32): string {
    c.base64(MAGIC_HEADER + Obfuscate(INNER_MAGIC + c.deflate(c.json(payload)), SeedForBucket(bucket)))
  }

  method Encode(c: Codec, payload: Payload, bucket: bv32) returns (code: string)
    ensures code == Encoded(c, payload, bucket)
  {
    hide Pad; hide Xor8; hide SeedForBucket;
    var inner := INNER_MAGIC + c.deflate(c.json(payload));
    var obfuscated := XorObfuscate(inner, SeedForBucket(bucket));
    assert obfuscated == Obfuscate(inner, SeedForBucket(bucket));
    code := c.base64(MAGIC_HEADER + obfuscated);
  }

  /** The loop over the current and the previous bucket; the head is de-obfuscated on its own first. */
  method Decode(c: Codec, input: string, bucket: bv32) returns (r: Result<Payload, Error>)
    ensures r == Decoded(c, input, bucket)
  {
    hide Pad; hide Xor8; hide SeedForBucket;
    var decoded := c.unbase64(Strip(input));
    if decoded == None {
      return Err(BadBase64);
    }
    var binary := decoded.value;
    if |binary| < 8 || binary[..4] != MAGIC_HEADER {
      return Err(BadHeader);
    }
    var body := binary[4..];
    for i := 0 to 2
      invariant i >= 1 ==> Attempt(c, body, SeedForBucket(bucket)) == None
      invariant i >= 2 ==> Attempt(c, body, SeedForBucket(Previous(bucket))) == None
    {
      var seed := SeedForBucket(if i == 0 then bucket else Previous(bucket));
      var head := XorObfuscate(body[..4], seed);
      assert head == Obfuscate(body[..4], seed);
      if head == INNER_MAGIC {
        var deobfuscated := XorObfuscate(body, seed);
        assert deobfuscated == Obfuscate(body, seed);
        var text := c.inflate(deobfuscated[4..]);
        if text.Some? {
          var payload := c.unjson(text.value);
          if payload.Some? {
            return if Valid(payload.value) then Ok(payload.value) else Err(Invalid);
          }
        }
      }
    }
    return Err(Undecodable);
  }

  /** `input` is `code` with whitespace strewn in anywhere. */
  ghost predicate Spaced(input: string, code: string) {
    if input == "" then code == ""
    else
      || (code != "" && input[0] == code[0] && Spaced(input[1..], code[1..]))
      || (IsWhitespace(input[0]) && Spaced(input[1..], code))
  }

  /** Stripping recovers a code without whitespace from exactly its spaced forms. */
  lemma {:induction false} StripRecovers(input: string, code: string)
    requires forall c | c in code :: !IsWhitespace(c)
    ensures Spaced(input, code) <==> Strip(input) == code
  {
    if input != "" {
      var rest := input[1..];
      StripRecovers(rest, code);
      if code != "" {
        assert code[0] in code && code == [code[0]] + code[1..];
        StripRecovers(rest, code[1..]);
      }
    }
  }

  lemma {:induction false} SpacedSelf(code: string)
    ensures Spaced(code, code)
  {
    if code != "" {
      SpacedSelf(code[1..]);
    }
  }

  /** An attempt with a seed on a body made with `seed0`: it yields the payload for the same seed, and
      gives up at the head for any seed that is not the kernel away. */
  lemma AttemptOnEncoded(c: Codec, payload: Payload, seed0: bv32, seed: bv32)
    requires c.RoundTrips()
    ensures var body := Obfuscate(INNER_MAGIC + c.deflate(c.json(payload)), seed0);
            && (seed == seed0 ==> Attempt(c, body, seed) == Some(payload))
            && (seed != seed0 && Xor(seed0, seed) != KERNEL ==> Attempt(c, body, seed) == None)
  {
    var inner := INNER_MAGIC + c.deflate(c.json(payload));
    HeadCheck(inner, seed0, seed);
    hide Xor; hide Pad; hide Xor8;
    assert inner[..4] == INNER_MAGIC;
    ObfuscateIsInvolution(inner, seed0);
    assert inner[4..] == c.deflate(c.json(payload));
  }

  /** What a code is, byte for byte. */
  lemma CodeLayout(c: Codec, payload: Payload, bucket: bv32)
    requires c.RoundTrips()
    ensures var code := c.unbase64(Encoded(c, payload, bucket));
            && code.Some? && |code.value| >= 8
            && code.value[..4] == [0x53, 0x53, 0x30, 0x33]
            && Obfuscate(code.value[4..], SeedForBucket(bucket))
               == [0x6d, 0x61, 0x67, 0x21] + c.deflate(c.json(payload))
  {
    hide SeedForBucket, Pad, Xor8;
    var inner := INNER_MAGIC + c.deflate(c.json(payload));
    ObfuscateIsInvolution(inner, SeedForBucket(bucket));
    var binary := MAGIC_HEADER + Obfuscate(inner, SeedForBucket(bucket));
    assert binary[4..] == Obfuscate(inner, SeedForBucket(bucket));
  }

  /** Why a code is refused: its base64, its header, a payload that does not validate, or no attempt succeeding. */
  lemma DecodeRefusals(c: Codec, input: string, now: bv32)
    ensures var binary := c.unbase64(Strip(input));
            var headed := binary.Some? && |binary.value| >= 8 && binary.value[..4] == [0x53, 0x53, 0x30, 0x33];
            var found := exists p :: Tried(c, input, now, p);
            && (Decoded(c, input, now) == Err(BadBase64) <==> binary == None)
            && (Decoded(c, input, now) == Err(BadHeader) <==> binary.Some? && !headed)
            && (Decoded(c, input, now) == Err(Undecodable) <==> headed && !found)
            && (Decoded(c, input, now) == Err(Invalid) <==>
                  exists p :: Tried(c, input, now, p)
                    && !((p.payloadType == "offer" || p.payloadType == "answer") && |p.publicKey| == 65))
  {
    hide SeedForBucket, Attempt;
    var binary := c.unbase64(Strip(input));
    if binary.Some? && |binary.value| >= 8 && binary.value[..4] == MAGIC_HEADER {
      var body := binary.value[4..];
      var current, previous := Attempt(c, body, SeedForBucket(now)), Attempt(c, body, SeedForBucket(Previous(now)));
      if current.Some? {
        assert Tried(c, input, now, current.value);
      } else if previous.Some? {
        assert Tried(c, input, now, previous.value);
      }
    }
  }

  /** `p` is what the first successful attempt makes of the input: the current bucket's, then the one before. */
  predicate Tried(c: Codec, input: string, now: bv32, p: Payload) {
    && c.unbase64(Strip(input)).Some?
    && var binary := c.unbase64(Strip(input)).value;
       && |binary| >= 8 && binary[..4] == MAGIC_HEADER
       && var current := Attempt(c, binary[4..], SeedForBucket(now));
          current == Some(p)
          || (current == None && now != 0 && Attempt(c, binary[4..], SeedForBucket(now - 1)) == Some(p))
  }

  /** Whatever decodes is a valid payload under the seed of this bucket or of the one before. */
  lemma DecodesOnlyCodes(c: Codec, input: string, now: bv32, payload: Payload)
    requires Decoded(c, input, now) == Ok(payload)
    ensures (payload.payloadType == "offer" || payload.payloadType == "answer") && |payload.publicKey| == 65
    ensures c.unbase64(Strip(input)).Some?
    ensures exists bucket, compressed ::
              && (bucket == now || (now != 0 && bucket == now - 1))
              && c.unbase64(Strip(input)).value
                 == [0x53, 0x53, 0x30, 0x33]
                    + Obfuscate([0x6d, 0x61, 0x67, 0x21] + compressed, SeedForBucket(bucket))
              && c.inflate(compressed).Some? && c.unjson(c.inflate(compressed).value) == Some(payload)
  {
    hide SeedForBucket, Pad, Xor8;
    var binary := c.unbase64(Strip(input)).value;
    var body := binary[4..];
    var bucket := if Attempt(c, body, SeedForBucket(now)).Some? then now else Previous(now);
    assert binary == MAGIC_HEADER + body && Attempt(c, body, SeedForBucket(bucket)) == Some(payload);
    hide Attempt, Obfuscate;
    var compressed := AttemptedCode(c, body, SeedForBucket(bucket), payload);
  }

  lemma AttemptedCode(c: Codec, body: seq<bv8>, seed: bv32, payload: Payload) returns (compressed: seq<bv8>)
    requires |body| >= 4 && Attempt(c, body, seed) == Some(payload)
    ensures body == Obfuscate([0x6d, 0x61, 0x67, 0x21] + compressed, seed)
    ensures c.inflate(compressed).Some? && c.unjson(c.inflate(compressed).value) == Some(payload)
  {
    hide Pad, Xor8;
    var inner := Obfuscate(body, seed);
    compressed := inner[4..];
    ObfuscateIsInvolution(body, seed);
    assert inner[..4] == Obfuscate(body[..4], seed);
    assert inner == INNER_MAGIC + compressed;
  }

  /** The decode window, for every payload and every way of spreading whitespace through the code. A code made in the
      previous bucket is lost only to an attempt with the current seed, which needs the two seeds to be the kernel apart. */
  lemma DecodeWindow(c: Codec, payload: Payload, made: bv32, now: bv32, input: string)
    requires c.RoundTrips()
    requires Spaced(input, Encoded(c, payload, made))
    ensures made == now ==> Decoded(c, input, now) == Checked(payload)
    ensures now != 0 && made == now - 1 ==>
              var body := Obfuscate(INNER_MAGIC + c.deflate(c.json(payload)), SeedForBucket(made));
              var current := Attempt(c, body, SeedForBucket(now));
              && Decoded(c, input, now) == Checked(if current.Some? then current.value else payload)
              && (current.Some? ==> Xor(SeedForBucket(made), SeedForBucket(now)) == KERNEL)
    ensures Xor(SeedForBucket(made), SeedForBucket(now)) != KERNEL && now != 0 && made == now - 1 ==>
              Decoded(c, input, now) == Checked(payload)
    ensures && made != now && Xor(SeedForBucket(made), SeedForBucket(now)) != KERNEL
            && (now != 0 ==> made != now - 1 && Xor(SeedForBucket(made), SeedForBucket(now - 1)) != KERNEL) ==>
              Decoded(c, input, now) == Err(Undecodable)
  {
    hide Xor; hide SeedForBucket; hide Attempt; hide Pad; hide Xor8;
    StripRecovers(input, Encoded(c, payload, made));
    var inner := INNER_MAGIC + c.deflate(c.json(payload));
    var body := Obfuscate(inner, SeedForBucket(made));
    var binary := MAGIC_HEADER + body;
    assert binary[..4] == MAGIC_HEADER && binary[4..] == body && |binary| >= 8;
    SeedIsBijective(made);
    SeedIsBijective(now);
    SeedIsBijective(Previous(now));
    AttemptOnEncoded(c, payload, SeedForBucket(made), SeedForBucket(now));
    AttemptOnEncoded(c, payload, SeedForBucket(made), SeedForBucket(Previous(now)));
  }

  /** `decode` undoes `encode` in the same bucket for exactly the payloads that validate. */
  lemma RoundTrip(c: Codec, payload: Payload, bucket: bv32)
    requires c.RoundTrips()
    ensures Decoded(c, Encoded(c, payload, bucket), bucket) == Ok(payload) <==>
            (payload.payloadType == "offer" || payload.payloadType == "answer") && |payload.publicKey| == 65
  {
    var code := Encoded(c, payload, bucket);
    SpacedSelf(code);
    DecodeWindow(c, payload, bucket, bucket, code);
  }
}
