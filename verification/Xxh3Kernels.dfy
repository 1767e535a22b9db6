/** The arithmetic inside XXH3 in dse/clib/data/xxhash.h: the portable 64x64->128 multiply, and the scalar
    and SSE2 forms of the accumulate and scramble steps. */
module Xxh3Kernels {
  import opened Widths
  import opened Words
  import opened XxhPrimes
  import opened Xxh3Reference

  // ---- XXH_mult64to128 ----

  datatype U128 = U128(low64: u64, high64: u64)

  /** The grade-school multiply; every sum wraps as in C. */
  function Mult64To128(lhs: u64, rhs: u64): U128 {
    var loLo := Mul(Low32(lhs), Low32(rhs));
    var hiLo := Mul(High32(lhs), Low32(rhs));
    var loHi := Mul(Low32(lhs), High32(rhs));
    var hiHi := Mul(High32(lhs), High32(rhs));
    var cross := Add(Add(High32(loLo), Low32(hiLo)), loHi);
    var upper := Add(Add(High32(hiLo), High32(cross)), hiHi);
    U128(Or(Up32(cross), Low32(loLo)), upper)
  }

  /** (2^32 - 1)^2. */
  const MAX_PRODUCT: nat := 0xFFFF_FFFE_0000_0001

  lemma ProductBound(a: nat, b: nat, m: nat)
    requires a <= m && b <= m
    ensures 0 <= a * b <= m * m
  {
    assert a * b <= a * m <= m * m;
  }

  lemma MulIfSmall(x: u64, y: u64, p: nat)
    requires x * y == p < TWO_64
    ensures Mul(x, y) == p
  {
  }

  /** XXH_mult32to64 does not wrap. */
  lemma PartialProduct(x: u64, y: u64)
    requires x < TWO_32 && y < TWO_32
    ensures Mul(x, y) == x * y <= MAX_PRODUCT
  {
    ProductBound(x, y, 0xFFFF_FFFF);
    MulIfSmall(x, y, x * y);
  }

  /** Nothing is lost: the two halves are the whole product, for all operands. */
  lemma MultiplyExact(lhs: u64, rhs: u64)
    ensures var r := Mult64To128(lhs, rhs); r.high64 * TWO_64 + r.low64 == lhs * rhs
  {
    var a, b, c, d := High32(lhs), Low32(lhs), High32(rhs), Low32(rhs);
    PartialProduct(b, d);
    PartialProduct(a, d);
    PartialProduct(b, c);
    PartialProduct(a, c);
    CarriesFit(Mul(b, d), Mul(a, d), Mul(b, c), Mul(a, c));
    Expand(a, b, c, d);
    assert lhs == a * TWO_32 + b && rhs == c * TWO_32 + d;
  }

  lemma Expand(a: nat, b: nat, c: nat, d: nat)
    ensures (a * TWO_32 + b) * (c * TWO_32 + d) == a * c * TWO_64 + (a * d + b * c) * TWO_32 + b * d
  {
    assert (a * TWO_32 + b) * (c * TWO_32 + d)
        == (a * TWO_32) * (c * TWO_32) + (a * TWO_32) * d + b * (c * TWO_32) + b * d;
    assert (a * TWO_32) * (c * TWO_32) == a * c * TWO_64;
  }

  /** The four partial products, each at most (2^32 - 1)^2, added up with their carries: no sum wraps, and
      the halves joined by `|` are the whole. */
  lemma CarriesFit(loLo: nat, hiLo: nat, loHi: nat, hiHi: nat)
    requires loLo <= MAX_PRODUCT && hiLo <= MAX_PRODUCT && loHi <= MAX_PRODUCT && hiHi <= MAX_PRODUCT
    ensures var cross := Add(Add(High32(loLo), Low32(hiLo)), loHi);
            var upper := Add(Add(High32(hiLo), High32(cross)), hiHi);
            && cross == High32(loLo) + Low32(hiLo) + loHi && upper == High32(hiLo) + High32(cross) + hiHi
            && upper * TWO_64 + Or(Up32(cross), Low32(loLo)) == hiHi * TWO_64 + (hiLo + loHi) * TWO_32 + loLo
  {
    SumFits(High32(loLo), Low32(hiLo), loHi);
    var cross := High32(loLo) + Low32(hiLo) + loHi;
    SumFits(High32(hiLo), High32(cross), hiHi);
    ShiftedUp(cross);
    OrOfHalves(Low32(cross), Low32(loLo));
    Carried(loLo, hiLo, cross);
  }

  /** A 32-bit carry, a 32-bit half and a partial product never pass 2^64. */
  lemma SumFits(x: u64, y: u64, product: u64)
    requires x < TWO_32 && y < TWO_32 && product <= MAX_PRODUCT
    ensures Add(Add(x, y), product) == x + y + product
  {
  }

  lemma Carried(loLo: nat, hiLo: nat, cross: nat)
    ensures (hiLo / TWO_32 + cross / TWO_32) * TWO_64 + cross % TWO_32 * TWO_32 + loLo % TWO_32
         == (hiLo - hiLo % TWO_32 + cross) * TWO_32 + loLo % TWO_32
  {
    assert hiLo == hiLo / TWO_32 * TWO_32 + hiLo % TWO_32;
    assert cross == cross / TWO_32 * TWO_32 + cross % TWO_32;
  }

  lemma ShiftedUp(x: u64)
    ensures Up32(x) == Low32(x) * TWO_32
  {
    assert x * TWO_32 == x / TWO_32 * TWO_64 + x % TWO_32 * TWO_32;
  }

  // ---- scalar form ----

  /** lane ^ 1. */
  function Neighbour(lane: nat): (n: nat)
    requires lane < 8
    ensures n < 8 && n != lane
  {
    if lane % 2 == 0 then lane + 1 else lane - 1
  }

  function DataKey(input: Bytes, secret: Bytes, lane: nat): u64 {
    Xor(Read64(input, lane), Read64(secret, lane))
  }

  /** XXH3_scalarRound: two lanes change, the neighbour first. */
  function ScalarRound(acc: Acc, input: Bytes, secret: Bytes, lane: nat): (r: Acc)
    requires lane < 8
  {
    var dataKey := DataKey(input, secret, lane);
    LaneRound(acc, lane, Read64(input, lane), Mul(Low32(dataKey), High32(dataKey)))
  }

  function LaneRound(acc: Acc, lane: nat, dataVal: u64, product: u64): (r: Acc)
    requires lane < 8
  {
    var a := acc[Neighbour(lane) := Add(acc[Neighbour(lane)], dataVal)];
    a[lane := Add(product, a[lane])]
  }

  /** XXH3_accumulate_512_scalar, from a lane on. */
  function ScalarFrom(acc: Acc, input: Bytes, secret: Bytes, lane: nat): Acc
    requires lane <= 8
    decreases 8 - lane
  {
    if lane == 8 then acc else ScalarFrom(ScalarRound(acc, input, secret, lane), input, secret, lane + 1)
  }

  function ScalarAccumulate(acc: Acc, input: Bytes, secret: Bytes): Acc {
    ScalarFrom(acc, input, secret, 0)
  }

  /** XXH3_scalarScrambleRound. */
  function ScrambledLane(a: u64, key: u64): u64 {
    Mul(Xor(Xor(a, ShiftRight47(a)), key), PRIME32_1)
  }

  /** XXH3_scrambleAcc_scalar, from a lane on. */
  function ScalarScrambleFrom(acc: Acc, secret: Bytes, lane: nat): Acc
    requires lane <= 8
    decreases 8 - lane
  {
    if lane == 8 then acc
    else ScalarScrambleFrom(acc[lane := ScrambledLane(acc[lane], Read64(secret, lane))], secret, lane + 1)
  }

  function ScalarScramble(acc: Acc, secret: Bytes): Acc {
    ScalarScrambleFrom(acc, secret, 0)
  }

  /** XXH3_initCustomSecret_scalar, the words it writes: every other lane of the secret moves by the seed. */
  function ScalarWord(kSecret: DefaultSecret, seed: u64, lane: nat): u64 {
    if lane % 2 == 0 then Add(Read64(kSecret, lane), seed) else Sub(Read64(kSecret, lane), seed)
  }

  /** The bytes of these words. */
  function SecretOf(word: nat -> u64): DefaultSecret {
    seq(192, j requires 0 <= j < 192 => ByteAt(word, j))
  }

  function ByteAt(word: nat -> u64, j: nat): u8 {
    ToBytes(word(j / 8), 8)[j % 8]
  }

  lemma ByteOfLane(word: nat -> u64, lane: nat, j: nat)
    requires 8 * lane <= j < 8 * lane + 8
    ensures ByteAt(word, j) == ToBytes(word(lane), 8)[j - 8 * lane]
  {
    assert j / 8 == lane && j % 8 == j - 8 * lane;
  }

  function ScalarSecret(kSecret: DefaultSecret, seed: u64): DefaultSecret {
    SecretOf((lane: nat) => ScalarWord(kSecret, seed, lane))
  }

  // ---- SSE2 form ----

  /** A 128-bit register, as its two 64-bit halves. */
  datatype V128 = V128(lo: u64, hi: u64)

  function Dword(v: V128, k: nat): (d: u64)
    requires k < 4
    ensures d < TWO_32
  {
    if k == 0 then Low32(v.lo) else if k == 1 then High32(v.lo) else if k == 2 then Low32(v.hi) else High32(v.hi)
  }

  /** _mm_shuffle_epi32 with _MM_SHUFFLE(z, y, x, w). */
  function Shuffle(v: V128, z: nat, y: nat, x: nat, w: nat): V128
    requires z < 4 && y < 4 && x < 4 && w < 4
  {
    V128(Dword(v, w) + Dword(v, x) * TWO_32, Dword(v, y) + Dword(v, z) * TWO_32)
  }

  /** _mm_mul_epu32, _mm_add_epi64, _mm_xor_si128, _mm_srli_epi64(., 47), _mm_slli_epi64(., 32). */
  function MulEpu32(a: V128, b: V128): V128 {
    V128(Mul(Low32(a.lo), Low32(b.lo)), Mul(Low32(a.hi), Low32(b.hi)))
  }

  function AddEpi64(a: V128, b: V128): V128 {
    V128(Add(a.lo, b.lo), Add(a.hi, b.hi))
  }

  function XorSi128(a: V128, b: V128): V128 {
    V128(Xor(a.lo, b.lo), Xor(a.hi, b.hi))
  }

  function Srli47(a: V128): V128 {
    V128(ShiftRight47(a.lo), ShiftRight47(a.hi))
  }

  function Slli32(a: V128): V128 {
    V128(Up32(a.lo), Up32(a.hi))
  }

  function Load(b: Bytes, i: nat): V128 {
    V128(Read64(b, 2 * i), Read64(b, 2 * i + 1))
  }

  function LoadAcc(acc: Acc, i: nat): V128
    requires i < 4
  {
    V128(acc[2 * i], acc[2 * i + 1])
  }

  function StoreVector(acc: Acc, i: nat, v: V128): Acc
    requires i < 4
  {
    acc[2 * i := v.lo][2 * i + 1 := v.hi]
  }

  /** One turn of the loop of XXH3_accumulate_512_sse2. */
  function Sse2Round(acc: Acc, input: Bytes, secret: Bytes, i: nat): Acc
    requires i < 4
  {
    var data := Load(input, i);
    var dataKey := XorSi128(data, Load(secret, i));
    var product := MulEpu32(dataKey, Shuffle(dataKey, 0, 3, 0, 1));
    var sum := AddEpi64(LoadAcc(acc, i), Shuffle(data, 1, 0, 3, 2));
    StoreVector(acc, i, AddEpi64(product, sum))
  }

  function Sse2From(acc: Acc, input: Bytes, secret: Bytes, i: nat): Acc
    requires i <= 4
    decreases 4 - i
  {
    if i == 4 then acc else Sse2From(Sse2Round(acc, input, secret, i), input, secret, i + 1)
  }

  function Sse2Accumulate(acc: Acc, input: Bytes, secret: Bytes): Acc {
    Sse2From(acc, input, secret, 0)
  }

  /** One turn of the loop of XXH3_scrambleAcc_sse2; prime32 holds the prime in all four dwords. */
  function Sse2ScrambleRound(acc: Acc, secret: Bytes, i: nat): Acc
    requires i < 4
  {
    var prime32 := V128(PRIME32_1 + PRIME32_1 * TWO_32, PRIME32_1 + PRIME32_1 * TWO_32);
    var v := LoadAcc(acc, i);
    var dataKey := XorSi128(XorSi128(v, Srli47(v)), Load(secret, i));
    var prodLo := MulEpu32(dataKey, prime32);
    var prodHi := MulEpu32(Shuffle(dataKey, 0, 3, 0, 1), prime32);
    StoreVector(acc, i, AddEpi64(prodLo, Slli32(prodHi)))
  }

  function Sse2ScrambleFrom(acc: Acc, secret: Bytes, i: nat): Acc
    requires i <= 4
    decreases 4 - i
  {
    if i == 4 then acc else Sse2ScrambleFrom(Sse2ScrambleRound(acc, secret, i), secret, i + 1)
  }

  function Sse2Scramble(acc: Acc, secret: Bytes): Acc {
    Sse2ScrambleFrom(acc, secret, 0)
  }

  /** XXH3_initCustomSecret_sse2: the vector (seed, 0 - seed) is added to each vector of the secret. */
  function Sse2Vector(kSecret: DefaultSecret, seed: u64, i: nat): V128 {
    AddEpi64(Load(kSecret, i), V128(seed, Sub(0, seed)))
  }

  function Sse2Word(kSecret: DefaultSecret, seed: u64, lane: nat): u64 {
    var v := Sse2Vector(kSecret, seed, lane / 2);
    if lane % 2 == 0 then v.lo else v.hi
  }

  function Sse2Secret(kSecret: DefaultSecret, seed: u64): DefaultSecret {
    SecretOf((lane: nat) => Sse2Word(kSecret, seed, lane))
  }

  // ---- the two forms agree ----

  lemma WordsAgree(kSecret: DefaultSecret, seed: u64, lane: nat)
    ensures ScalarWord(kSecret, seed, lane) == Sse2Word(kSecret, seed, lane)
  {
    assert lane == 2 * (lane / 2) + lane % 2;
  }

  lemma SecretsAgree(kSecret: DefaultSecret, seed: u64)
    ensures ScalarSecret(kSecret, seed) == Sse2Secret(kSecret, seed)
  {
    forall lane: nat ensures ScalarWord(kSecret, seed, lane) == Sse2Word(kSecret, seed, lane) {
      WordsAgree(kSecret, seed, lane);
    }
  }

  /** Reading a lane of the derived secret gives the word that was written. */
  lemma SecretReadsBack(word: nat -> u64, lane: nat)
    requires lane < 24
    ensures Read64(SecretOf(word), lane) == word(lane)
  {
    var b := SecretOf(word)[8 * lane..8 * lane + 8];
    forall k | 0 <= k < 8 ensures b[k] == ToBytes(word(lane), 8)[k] {
      ByteOfLane(word, lane, 8 * lane + k);
    }
    assert b == ToBytes(word(lane), 8);
    Pow2Of64();
    ReadsBack(word(lane), 8);
  }

  lemma ReadsBack(x: u64, n: nat)
    requires Pow2(8 * n) == TWO_64
    ensures LittleEndian(ToBytes(x, n)) == x
  {
    BytesReadBack(x, n);
  }

  lemma AddRegroups(x: u64, y: u64, z: u64)
    ensures Add(Add(x, y), z) == Add(x, Add(y, z)) == Add(z, Add(x, y)) == Add(Add(x, z), y)
  {
  }

  lemma ShuffledHalves(v: V128)
    ensures var s := Shuffle(v, 0, 3, 0, 1); Low32(s.lo) == High32(v.lo) && Low32(s.hi) == High32(v.hi)
    ensures Shuffle(v, 1, 0, 3, 2) == V128(v.hi, v.lo)
  {
  }

  lemma LanePair(acc: Acc, i: nat, d0: u64, d1: u64, m0: u64, m1: u64)
    requires i < 4
    ensures LaneRound(LaneRound(acc, 2 * i, d0, m0), 2 * i + 1, d1, m1)
         == StoreVector(acc, i, V128(Add(Add(m0, acc[2 * i]), d1), Add(m1, Add(acc[2 * i + 1], d0))))
  {
    assert Neighbour(2 * i) == 2 * i + 1 && Neighbour(2 * i + 1) == 2 * i;
  }

  /** Two interleaved scalar rounds are one vector round. */
  lemma RoundsAgree(acc: Acc, input: Bytes, secret: Bytes, i: nat)
    requires i < 4
    ensures ScalarRound(ScalarRound(acc, input, secret, 2 * i), input, secret, 2 * i + 1)
         == Sse2Round(acc, input, secret, i)
  {
    var data := Load(input, i);
    var dataKey := XorSi128(data, Load(secret, i));
    ShuffledHalves(data);
    ShuffledHalves(dataKey);
    var m0, m1 := Mul(Low32(dataKey.lo), High32(dataKey.lo)), Mul(Low32(dataKey.hi), High32(dataKey.hi));
    LanePair(acc, i, data.lo, data.hi, m0, m1);
    AddRegroups(m0, acc[2 * i], data.hi);
    AddRegroups(m1, acc[2 * i + 1], data.lo);
    assert MulEpu32(dataKey, Shuffle(dataKey, 0, 3, 0, 1)) == V128(m0, m1);
  }

  lemma {:induction false} AccumulateFromAgrees(acc: Acc, input: Bytes, secret: Bytes, i: nat)
    requires i <= 4
    ensures ScalarFrom(acc, input, secret, 2 * i) == Sse2From(acc, input, secret, i)
    decreases 4 - i
  {
    if i < 4 {
      RoundsAgree(acc, input, secret, i);
      AccumulateFromAgrees(Sse2Round(acc, input, secret, i), input, secret, i + 1);
    }
  }

  /** prod_lo + (prod_hi << 32) is the 64-bit product with the 32-bit prime. */
  lemma SplitProduct(x: u64)
    ensures Mul(x, PRIME32_1) == Add(Mul(Low32(x), PRIME32_1), Up32(Mul(High32(x), PRIME32_1)))
  {
    var l, h := Low32(x) * PRIME32_1, High32(x) * PRIME32_1;
    MulIfSmall(Low32(x), PRIME32_1, l);
    MulIfSmall(High32(x), PRIME32_1, h);
    ShiftedUp(h);
    assert x == High32(x) * TWO_32 + Low32(x);
    assert x * PRIME32_1 == h * TWO_32 + l == h / TWO_32 * TWO_64 + (h % TWO_32 * TWO_32 + l);
    WrapDrops(h % TWO_32 * TWO_32 + l, h / TWO_32);
    AddIsWrap(l, h % TWO_32 * TWO_32);
  }

  lemma WrapDrops(x: nat, q: nat)
    ensures Wrap(q * TWO_64 + x) == Wrap(x)
  {
  }

  lemma AddIsWrap(x: u64, y: u64)
    ensures Add(x, y) == Wrap(y + x)
  {
  }

  lemma ScrambleRoundsAgree(acc: Acc, secret: Bytes, i: nat)
    requires i < 4
    ensures acc[2 * i := ScrambledLane(acc[2 * i], Read64(secret, 2 * i))]
               [2 * i + 1 := ScrambledLane(acc[2 * i + 1], Read64(secret, 2 * i + 1))]
         == Sse2ScrambleRound(acc, secret, i)
  {
    var v := LoadAcc(acc, i);
    var dataKey := XorSi128(XorSi128(v, Srli47(v)), Load(secret, i));
    ShuffledHalves(dataKey);
    SplitProduct(dataKey.lo);
    SplitProduct(dataKey.hi);
    assert Low32(PRIME32_1 + PRIME32_1 * TWO_32) == PRIME32_1;
  }

  lemma {:induction false} ScrambleFromAgrees(acc: Acc, secret: Bytes, i: nat)
    requires i <= 4
    ensures ScalarScrambleFrom(acc, secret, 2 * i) == Sse2ScrambleFrom(acc, secret, i)
    decreases 4 - i
  {
    if i < 4 {
      ScrambleRoundsAgree(acc, secret, i);
      ScrambleFromAgrees(Sse2ScrambleRound(acc, secret, i), secret, i + 1);
    }
  }

  ghost predicate SameSteps(k: Kernel, k': Kernel) {
    && (forall acc: Acc, input: Bytes, secret: Bytes ::
          k.accumulate512(acc, input, secret) == k'.accumulate512(acc, input, secret))
    && (forall acc: Acc, secret: Bytes :: k.scramble(acc, secret) == k'.scramble(acc, secret))
    && (forall seed: u64 :: k.initSecret(seed) == k'.initSecret(seed))
    && k.kSecret == k'.kSecret && k.initAcc == k'.initAcc
  }

  lemma {:induction false} AbsorbAgrees(k: Kernel, k': Kernel, secret: Bytes, p: Progress, data: Bytes)
    requires |secret| >= SECRET_MIN && p.soFar < StripesPerBlock(secret) && |data| % STRIPE == 0
    requires SameSteps(k, k')
    ensures Absorb(k, secret, p, data) == Absorb(k', secret, p, data)
    decreases |data|
  {
    if data != [] {
      AbsorbAgrees(k, k', secret, Step(k, secret, p, data[..STRIPE]), data[STRIPE..]);
    }
  }

  function ScalarKernel(kSecret: DefaultSecret, initAcc: Acc): Kernel {
    Kernel(ScalarAccumulate, ScalarScramble, (seed: u64) => ScalarSecret(kSecret, seed), kSecret, initAcc)
  }

  function Sse2Kernel(kSecret: DefaultSecret, initAcc: Acc): Kernel {
    Kernel(Sse2Accumulate, Sse2Scramble, (seed: u64) => Sse2Secret(kSecret, seed), kSecret, initAcc)
  }

  lemma KernelsAgree(kSecret: DefaultSecret, initAcc: Acc)
    ensures SameSteps(ScalarKernel(kSecret, initAcc), Sse2Kernel(kSecret, initAcc))
  {
    forall seed: u64 ensures ScalarSecret(kSecret, seed) == Sse2Secret(kSecret, seed) {
      SecretsAgree(kSecret, seed);
    }
    forall acc: Acc, input: Bytes, secret: Bytes
      ensures ScalarAccumulate(acc, input, secret) == Sse2Accumulate(acc, input, secret)
    {
      AccumulateFromAgrees(acc, input, secret, 0);
    }
    forall acc: Acc, secret: Bytes ensures ScalarScramble(acc, secret) == Sse2Scramble(acc, secret) {
      ScrambleFromAgrees(acc, secret, 0);
    }
  }

  lemma SameStepsSameHash<H>(k: Kernel, k': Kernel, o: Output<H>, m: Mode, data: Bytes)
    requires Legal(m) && SameSteps(k, k')
    ensures HashOf(k, o, m, data) == HashOf(k', o, m, data)
  {
    if |data| > MIDSIZE_MAX {
      AbsorbAgrees(k, k', LongSecret(k, m), Start(k), Body(data));
    }
  }

  /** Every XXH3 hash, in every mode and for every input, is the same with either kernel. */
  lemma VectorRefinesScalar<H>(kSecret: DefaultSecret, initAcc: Acc, o: Output<H>, m: Mode, data: Bytes)
    requires Legal(m)
    ensures HashOf(Sse2Kernel(kSecret, initAcc), o, m, data) == HashOf(ScalarKernel(kSecret, initAcc), o, m, data)
  {
    KernelsAgree(kSecret, initAcc);
    SameStepsSameHash(ScalarKernel(kSecret, initAcc), Sse2Kernel(kSecret, initAcc), o, m, data);
  }

  // ---- in place ----

  /** XXH3_accumulate_512_scalar. */
  method AccumulateScalar(acc: array<u64>, input: Bytes, secret: Bytes)
    requires acc.Length == 8
    modifies acc
    ensures acc[..] == ScalarAccumulate(old(acc[..]), input, secret)
  {
    for lane := 0 to 8
      invariant ScalarFrom(acc[..], input, secret, lane) == ScalarAccumulate(old(acc[..]), input, secret)
    {
      ghost var before := acc[..];
      var dataVal := Read64(input, lane);
      var dataKey := Xor(dataVal, Read64(secret, lane));
      acc[Neighbour(lane)] := Add(acc[Neighbour(lane)], dataVal);
      acc[lane] := Add(Mul(Low32(dataKey), High32(dataKey)), acc[lane]);
      assert acc[..] == ScalarRound(before, input, secret, lane);
    }
  }

  /** XXH3_accumulate_512_sse2. */
  method AccumulateSse2(acc: array<u64>, input: Bytes, secret: Bytes)
    requires acc.Length == 8
    modifies acc
    ensures acc[..] == ScalarAccumulate(old(acc[..]), input, secret)
  {
    AccumulateFromAgrees(acc[..], input, secret, 0);
    for i := 0 to 4
      invariant Sse2From(acc[..], input, secret, i) == Sse2Accumulate(old(acc[..]), input, secret)
    {
      ghost var before := acc[..];
      var data := Load(input, i);
      var dataKey := XorSi128(data, Load(secret, i));
      var product := MulEpu32(dataKey, Shuffle(dataKey, 0, 3, 0, 1));
      var sum := AddEpi64(V128(acc[2 * i], acc[2 * i + 1]), Shuffle(data, 1, 0, 3, 2));
      var v := AddEpi64(product, sum);
      acc[2 * i], acc[2 * i + 1] := v.lo, v.hi;
      assert acc[..] == Sse2Round(before, input, secret, i);
    }
  }

  /** XXH_writeLE64 of the word of a lane, behind those of the lanes before it. */
  method WriteLane(dst: array<u8>, lane: nat, x: u64, ghost word: nat -> u64)
    requires 8 * lane + 8 <= dst.Length && x == word(lane)
    requires forall j :: 0 <= j < 8 * lane ==> dst[j] == ByteAt(word, j)
    modifies dst
    ensures forall j :: 0 <= j < 8 * lane + 8 ==> dst[j] == ByteAt(word, j)
  {
    CopyTo(dst, 8 * lane, ToBytes(x, 8));
    forall j | 8 * lane <= j < 8 * lane + 8 ensures dst[j] == ByteAt(word, j) {
      ByteOfLane(word, lane, j);
    }
  }

  /** XXH3_initCustomSecret_scalar. */
  method InitSecretScalar(dst: array<u8>, kSecret: DefaultSecret, seed: u64)
    requires dst.Length == 192
    modifies dst
    ensures dst[..] == ScalarSecret(kSecret, seed)
  {
    ghost var word := (lane: nat) => ScalarWord(kSecret, seed, lane);
    for i := 0 to 12
      invariant forall j :: 0 <= j < 16 * i ==> dst[j] == ByteAt(word, j)
    {
      var lo := Add(Read64(kSecret, 2 * i), seed);
      var hi := Sub(Read64(kSecret, 2 * i + 1), seed);
      WriteLane(dst, 2 * i, lo, word);
      WriteLane(dst, 2 * i + 1, hi, word);
    }
  }

  /** XXH3_initCustomSecret_sse2. */
  method InitSecretSse2(dst: array<u8>, kSecret: DefaultSecret, seed: u64)
    requires dst.Length == 192
    modifies dst
    ensures dst[..] == ScalarSecret(kSecret, seed)
  {
    ghost var word := (lane: nat) => Sse2Word(kSecret, seed, lane);
    for i := 0 to 12
      invariant forall j :: 0 <= j < 16 * i ==> dst[j] == ByteAt(word, j)
    {
      var v := AddEpi64(Load(kSecret, i), V128(seed, Sub(0, seed)));
      assert word(2 * i) == v.lo && word(2 * i + 1) == v.hi;
      WriteLane(dst, 2 * i, v.lo, word);
      WriteLane(dst, 2 * i + 1, v.hi, word);
    }
    SecretsAgree(kSecret, seed);
  }
}
