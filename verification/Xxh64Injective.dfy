/** The same for XXH64: its steps lose nothing, so tails that differ in one unit have different hashes, and stripes
    that differ in one word have accumulators that differ in that lane only. */
module Xxh64Injective {
  import opened Widths
  import opened Words
  import opened Bits
  import opened XxhPrimes
  import opened XxhClassic
  import opened XxhAlgorithms
  import opened XxhInjective

  // ---- steps modulo 2^64 ----

  /** The odd constants have inverses modulo 2^64. */
  lemma Inverse64(p: nat) returns (q: nat, m: nat)
    requires p in {PRIME64_1, PRIME64_2, PRIME64_3, PRIME64_4, PRIME64_5}
    ensures p * q == m * TWO_64 + 1
  {
    if p == PRIME64_1 {
      q, m := 0x887493432badb37, 0x545584ccd1fa67a;
    } else if p == PRIME64_2 {
      q, m := 0xba79078168d4baf, 0x8dd1dec21860607;
    } else if p == PRIME64_3 {
      q, m := 0xe9e9f4c41d6df849, 0x14690e6081378f7f;
    } else if p == PRIME64_4 {
      q, m := 0xd872e78f6fe1434b, 0x713b0ef8028ab485;
    } else {
      q, m := 0xc592c09fdfba7f0d, 0x1ebdae61ed7c1b77;
    }
  }

  lemma Factor64(x: u64, y: u64, p: u64)
    requires p in {PRIME64_1, PRIME64_2, PRIME64_3, PRIME64_4, PRIME64_5} && Mul(x, p) == Mul(y, p)
    ensures x == y
  {
    var q, m := Inverse64(p);
    FactorCancels(x, y, p, q, m, TWO_64);
  }

  lemma Rotl64Injective(x: u64, y: u64, r: nat)
    requires r <= 64 && Rotl64(x, r) == Rotl64(y, r)
    ensures x == y
  {
    Pow2Of64();
    RotlWithin(x, y, r, 64, TWO_64);
  }

  lemma XorShift64Injective(x: u64, y: u64, k: nat)
    requires k > 0 && XorShift64(x, k) == XorShift64(y, k)
    ensures x == y
  {
    Pow2Of64();
    XorShiftWithin(x, y, k, 64);
  }

  lemma Xor64Injective(x: u64, y: u64, z: u64)
    requires Xor(x, z) == Xor(y, z) || Xor(z, x) == Xor(z, y)
    ensures x == y
  {
    Pow2Of64();
    XorWithin(x, y, z, 64);
  }

  lemma XorWithin(x: nat, y: nat, z: nat, n: nat)
    requires x < Pow2(n) && y < Pow2(n)
    requires XorBits(x, z, n) == XorBits(y, z, n) || XorBits(z, x, n) == XorBits(z, y, n)
    ensures x == y
  {
    XorCancels(x, y, z, n);
  }

  lemma Add64Injective(x: u64, y: u64, z: u64)
    requires Add(x, z) == Add(y, z) || Add(z, x) == Add(z, y)
    ensures x == y
  {
  }

  // ---- XXH64 ----

  lemma Round64Injective(a: u64, b: u64, i: u64, j: u64)
    requires Round64(a, i) == Round64(b, j)
    ensures i == j ==> a == b
    ensures a == b ==> i == j
  {
    var x, y := Add(a, Mul(i, PRIME64_2)), Add(b, Mul(j, PRIME64_2));
    Factor64(Rotl64(x, 31), Rotl64(y, 31), PRIME64_1);
    Rotl64Injective(x, y, 31);
    if i == j {
      Add64Injective(a, b, Mul(i, PRIME64_2));
    }
    if a == b {
      Add64Injective(Mul(i, PRIME64_2), Mul(j, PRIME64_2), a);
      Factor64(i, j, PRIME64_2);
    }
  }

  lemma MixWord64Injective(h: u64, g: u64, w: u64, v: u64)
    requires MixWord64(h, w) == MixWord64(g, v)
    ensures w == v ==> h == g
    ensures h == g ==> w == v
  {
    var x, y := Xor(h, Round64(0, w)), Xor(g, Round64(0, v));
    Add64Injective(Mul(Rotl64(x, 27), PRIME64_1), Mul(Rotl64(y, 27), PRIME64_1), PRIME64_4);
    Factor64(Rotl64(x, 27), Rotl64(y, 27), PRIME64_1);
    Rotl64Injective(x, y, 27);
    XoredAlike(h, g, Round64(0, w), Round64(0, v));
    if h == g {
      Round64Injective(0, 0, w, v);
    }
  }

  lemma XoredAlike(h: u64, g: u64, r: u64, s: u64)
    requires Xor(h, r) == Xor(g, s)
    ensures r == s ==> h == g
    ensures h == g ==> r == s
  {
    if r == s {
      Xor64Injective(h, g, r);
    }
    if h == g {
      Xor64Injective(r, s, h);
    }
  }

  lemma MixHalf64Injective(h: u64, g: u64, w: u64, v: u64)
    requires MixHalf64(h, w) == MixHalf64(g, v)
    ensures w == v ==> h == g
    ensures h == g ==> w == v
  {
    var x, y := Xor(h, Mul(w, PRIME64_1)), Xor(g, Mul(v, PRIME64_1));
    Add64Injective(Mul(Rotl64(x, 23), PRIME64_2), Mul(Rotl64(y, 23), PRIME64_2), PRIME64_3);
    Factor64(Rotl64(x, 23), Rotl64(y, 23), PRIME64_2);
    Rotl64Injective(x, y, 23);
    XoredAlike(h, g, Mul(w, PRIME64_1), Mul(v, PRIME64_1));
    if h == g {
      Factor64(w, v, PRIME64_1);
    }
  }

  lemma MixByte64Injective(h: u64, g: u64, w: u64, v: u64)
    requires MixByte64(h, w) == MixByte64(g, v)
    ensures w == v ==> h == g
    ensures h == g ==> w == v
  {
    var x, y := Xor(h, Mul(w, PRIME64_5)), Xor(g, Mul(v, PRIME64_5));
    Factor64(Rotl64(x, 11), Rotl64(y, 11), PRIME64_1);
    Rotl64Injective(x, y, 11);
    XoredAlike(h, g, Mul(w, PRIME64_5), Mul(v, PRIME64_5));
    if h == g {
      Factor64(w, v, PRIME64_5);
    }
  }

  lemma Avalanche64Injective(h: u64, g: u64)
    requires Avalanche64(h) == Avalanche64(g)
    ensures h == g
  {
    var a, b := Mul(XorShift64(h, 33), PRIME64_2), Mul(XorShift64(g, 33), PRIME64_2);
    var c, d := Mul(XorShift64(a, 29), PRIME64_3), Mul(XorShift64(b, 29), PRIME64_3);
    XorShift64Injective(c, d, 32);
    Factor64(XorShift64(a, 29), XorShift64(b, 29), PRIME64_3);
    XorShift64Injective(a, b, 29);
    Factor64(XorShift64(h, 33), XorShift64(g, 33), PRIME64_2);
    XorShift64Injective(h, g, 33);
  }

  lemma EightBytes(b: Bytes)
    requires |b| <= 8
    ensures Wrap(LittleEndian(b)) == LittleEndian(b)
  {
    Pow2Of64();
    SmallerPower(8 * |b|, 64);
    BoundOf(b, 8 * |b|, TWO_64);
  }

  lemma SmallerPower(j: nat, k: nat)
    requires j <= k
    ensures Pow2(j) <= Pow2(k)
  {
    Pow2Sum(j, k - j);
    assert Pow2(j) * 1 <= Pow2(j) * Pow2(k - j);
  }

  lemma WordAlike(b: Bytes, c: Bytes)
    requires |b| == |c| <= 8 && Wrap(LittleEndian(b)) == Wrap(LittleEndian(c))
    ensures b == c
  {
    EightBytes(b);
    EightBytes(c);
    LittleEndianInjective(b, c);
  }

  lemma Xxh64LosesNothing()
    ensures LosesNothing(Xxh64())
  {
    var a := Xxh64();
    forall x: u64, y: u64, i: u64, j: u64 ensures RoundKeeps(a, x, y, i, j) {
      if Round64(x, i) == Round64(y, i) {
        Round64Injective(x, y, i, i);
      }
      if Round64(x, i) == Round64(x, j) {
        Round64Injective(x, x, i, j);
      }
    }
    forall b: Bytes, c: Bytes ensures ReadKeeps(a, b, c) {
      if |b| == |c| == 8 && Word64(b) == Word64(c) {
        WordAlike(b, c);
      }
    }
  }

  lemma Tail64Keeps()
    ensures TailKeeps(Tail64(), TWO_64)
  {
    forall h: u64, g: u64, b: Bytes, c: Bytes ensures MixKeeps(Tail64(), TWO_64, h, g, b, c) {
      Mix64UnitKeeps(h, g, b, c);
    }
    forall h: u64, g: u64 ensures LastKeeps(Tail64(), TWO_64, h, g) {
      if Avalanche64(h) == Avalanche64(g) {
        Avalanche64Injective(h, g);
      }
    }
  }

  lemma Mix64UnitKeeps(h: u64, g: u64, b: Bytes, c: Bytes)
    ensures MixKeeps(Tail64(), TWO_64, h, g, b, c)
  {
    if Mix64Unit(h, b) == Mix64Unit(g, b) {
      Mix64UnitInjective(h, g, b, b);
    }
    if |b| == |c| && UnitLength(Tail64(), |b|) && Mix64Unit(h, b) == Mix64Unit(h, c) {
      Mix64UnitInjective(h, h, b, c);
      WordAlike(b, c);
    }
  }

  lemma Mix64UnitInjective(h: u64, g: u64, b: Bytes, c: Bytes)
    requires |b| == |c| && Mix64Unit(h, b) == Mix64Unit(g, c)
    ensures b == c ==> h == g
    ensures h == g ==> Wrap(LittleEndian(b)) == Wrap(LittleEndian(c))
  {
    var w, v := Wrap(LittleEndian(b)), Wrap(LittleEndian(c));
    if |b| == 8 {
      MixWord64Injective(h, g, w, v);
    } else if |b| == 4 {
      MixHalf64Injective(h, g, w, v);
    } else {
      MixByte64Injective(h, g, w, v);
    }
  }

  // ---- XXH64 as a whole ----

  /** The units XXH64 reads the bytes behind the whole stripes in: words of eight bytes as far as they go, four
      bytes if there are as many, then single bytes. */
  predicate Unit64(len: nat, p: nat, n: nat) {
    || (n == 8 && p % 8 == 0 && p + 8 <= len)
    || (n == 4 && p == len - len % 8 && len % 8 >= 4)
    || (n == 1 && len - len % 4 <= p < len)
  }

  lemma {:induction false} UnitOfTail64(len: nat, p: nat, n: nat)
    requires Unit64(len, p, n)
    ensures IsUnit(Tail64(), len, p, n)
    decreases len
  {
    var k := UnitOf(Tail64(), len);
    assert k == if len >= 8 then 8 else if len >= 4 then 4 else 1;
    NextUnit64(len, p, n, k);
    if p != 0 {
      UnitOfTail64(len - k, p - k, n);
    }
  }

  lemma NextUnit64(len: nat, p: nat, n: nat, k: nat)
    requires Unit64(len, p, n) && k == if len >= 8 then 8 else if len >= 4 then 4 else 1
    ensures if p == 0 then n == k else k <= p && Unit64(len - k, p - k, n)
  {
    if len >= 8 && p != 0 {
      assert p >= 8;
      EightLess(len);
      EightLess(p);
    }
  }

  lemma EightLess(x: nat)
    requires x >= 8
    ensures (x - 8) % 8 == x % 8 && (x - 8) % 4 == x % 4
  {
  }

  /** Two inputs of the same length that differ in exactly one unit behind the whole stripes have different XXH64
      hashes, for every seed. */
  lemma Xxh64TellsTailsApart(seed: u64, x: Bytes, y: Bytes, p: nat, n: nat)
    requires OneApart(x, y, p, n) && Unit64(|x|, p, n) && |x| - |x| % 32 <= p
    ensures HashOf(Xxh64(), seed, x) != HashOf(Xxh64(), seed, y)
  {
    var a, m := Xxh64(), |x| - |x| % 32;
    Left64(|x|);
    RestIsUnit64(x, y, p, n, m);
    FinishApart64(AddLength64(OpenedOf(a, seed, x), |x|), Rest(a, x), Rest(a, y), p - m, n);
    RestDecides(a, seed, x, y, p, n);
  }

  lemma RestIsUnit64(x: Bytes, y: Bytes, p: nat, n: nat, m: nat)
    requires OneApart(x, y, p, n) && Unit64(|x|, p, n) && m == |x| - |x| % 32 <= p
    ensures OneApart(Rest(Xxh64(), x), Rest(Xxh64(), y), p - m, n) && Unit64(|Rest(Xxh64(), x)|, p - m, n)
  {
    Left64(|x|);
    RestApart(Xxh64(), x, y, p, n, m);
    Unit64Behind(|x|, p, n, m);
  }

  lemma Left64(len: nat)
    ensures Left(Xxh64(), len) == len % 32 && Legal(Xxh64())
  {
  }

  lemma Unit64Behind(len: nat, p: nat, n: nat, whole: nat)
    requires Unit64(len, p, n) && whole == len - len % 32 <= p
    ensures Unit64(len - whole, p - whole, n)
  {
    var q := len / 32;
    assert whole == 32 * q;
    Behind32(len - whole, q);
    Behind32(p - whole, q);
    assert len == len - whole + 32 * q && p == p - whole + 32 * q;
  }

  lemma Behind32(a: nat, q: nat)
    ensures (a + 32 * q) % 8 == a % 8 && (a + 32 * q) % 4 == a % 4
  {
    RestOf(a + 32 * q, a / 8 + 4 * q, a % 8, 8);
    RestOf(a + 32 * q, a / 4 + 8 * q, a % 4, 4);
  }

  lemma FinishApart64(h: u64, x: Bytes, y: Bytes, p: nat, n: nat)
    requires OneApart(x, y, p, n) && Unit64(|x|, p, n)
    ensures Finish64(h, x) != Finish64(h, y)
  {
    Tail64Keeps();
    UnitOfTail64(|x|, p, n);
    FinalizedApart(Tail64(), TWO_64, h, x, y, p, n);
  }

  /** Two inputs that differ in exactly one word of a whole stripe have accumulators that differ in the lane of that
      word and in no other. */
  lemma Xxh64TellsWordsApart(seed: u64, x: Bytes, y: Bytes, p: nat)
    requires OneApart(x, y, p, 8) && p % 8 == 0 && p < |x| - |x| % 32
    ensures OneLane(Rounds(Xxh64(), InitAccs64(seed), x), Rounds(Xxh64(), InitAccs64(seed), y), p % 32 / 8)
  {
    WordOfStripe64(|x|, p);
    StripesApart64(seed, x, y, p - p % 32, p % 32 / 8);
  }

  lemma WordOfStripe64(len: nat, p: nat)
    requires p % 8 == 0 && p < len - len % 32
    ensures p == p - p % 32 + 8 * (p % 32 / 8) && p % 32 / 8 < 4 && (p - p % 32) % 32 == 0 && p - p % 32 + 32 <= len
  {
    var q, r := p / 32, p % 32;
    assert p == r + 32 * q;
    Behind32(r, q);
    RestOf(32 * q, q, 0, 32);
    var w := len / 32;
    assert len - len % 32 == 32 * w;
  }

  lemma StripesApart64(seed: u64, x: Bytes, y: Bytes, m: nat, l: nat)
    requires OneApart(x, y, m + 8 * l, 8) && l < 4 && m % 32 == 0 && m + 32 <= |x|
    ensures OneLane(Rounds(Xxh64(), InitAccs64(seed), x), Rounds(Xxh64(), InitAccs64(seed), y), l)
  {
    Xxh64LosesNothing();
    StripeWordApart(Xxh64(), InitAccs64(seed), x, y, m, l);
  }
}
