/** What the XXH3 hashes are, apart from how the code arranges its loops: every stripe, its place in the secret
    and the points where the accumulators are scrambled are given by number, and so is what one step does. */
module Xxh3Laws {
  import opened Words
  import opened Xxh3Reference

  // ---- which stripe meets which part of the secret ----

  /** The accumulators after the first n stripes of 64 bytes.  Counting from the start of its block, stripe j is
      keyed 8 * j bytes into the secret; a block has as many stripes as the secret has room for, and behind each
      block the accumulators are scrambled with the last 64 bytes of the secret. */
  function Flat(k: Kernel, s: Bytes, d: Bytes, n: nat): Acc
    requires |s| >= 136 && 64 * n <= |d|
  {
    if n == 0 then k.initAcc
    else
      var nb := (|s| - 64) / 8;
      var j := (n - 1) % nb;
      var a := k.accumulate512(Flat(k, s, d, n - 1), d[64 * n - 64..64 * n], s[8 * j..8 * j + 64]);
      if n % nb == 0 then k.scramble(a, s[|s| - 64..]) else a
  }

  lemma {:induction false} AbsorbIsFlat(k: Kernel, s: Bytes, d: Bytes, n: nat, nb: nat)
    requires |s| >= 136 && 64 * n <= |d| && nb == (|s| - 64) / 8
    ensures |d[..64 * n]| % 64 == 0 && Absorb(k, s, Start(k), d[..64 * n]) == Progress(Flat(k, s, d, n), n % nb)
  {
    if n > 0 {
      AbsorbIsFlat(k, s, d, n - 1, nb);
      var x, y := d[..64 * (n - 1)], d[64 * (n - 1)..64 * n];
      assert d[..64 * n] == x + y;
      AbsorbConcat(k, s, Start(k), x, y);
      AbsorbOne(k, s, Progress(Flat(k, s, d, n - 1), (n - 1) % nb), y);
      StepIsFlat(k, s, d, n, nb, (n - 1) % nb);
    }
  }

  lemma StepIsFlat(k: Kernel, s: Bytes, d: Bytes, n: nat, nb: nat, j: nat)
    requires |s| >= 136 && 0 < n && 64 * n <= |d| && nb == (|s| - 64) / 8 && j == (n - 1) % nb
    ensures Step(k, s, Progress(Flat(k, s, d, n - 1), j), d[64 * (n - 1)..64 * n]) == Progress(Flat(k, s, d, n), n % nb)
  {
    NextInBlock(n, nb);
    FlatNext(k, s, d, n, nb, j);
  }

  lemma AbsorbOne(k: Kernel, s: Bytes, p: Progress, y: Bytes)
    requires |s| >= 136 && p.soFar < StripesPerBlock(s) && |y| == 64
    ensures Absorb(k, s, p, y) == Step(k, s, p, y)
  {
    assert y[..64] == y && y[64..] == [];
  }

  lemma NextInBlock(n: nat, nb: nat)
    requires n > 0 && nb > 0
    ensures n % nb == if (n - 1) % nb + 1 == nb then 0 else (n - 1) % nb + 1
  {
    var q, r := (n - 1) / nb, (n - 1) % nb;
    assert n - 1 == q * nb + r;
    if r + 1 == nb {
      Remainder(n, q + 1, 0, nb);
    } else {
      Remainder(n, q, r + 1, nb);
    }
  }

  lemma Remainder(n: nat, q: nat, r: nat, d: nat)
    requires r < d && n == q * d + r
    ensures n % d == r
  {
    var k := n / d;
    assert n == k * d + n % d;
    assert k < q ==> (k + 1) * d <= q * d;
    assert k > q ==> (q + 1) * d <= k * d;
  }

  /** A long input: all stripes that begin before its last 64 bytes are over, then these 64 bytes, keyed 71 bytes
      before the end of the secret. */
  lemma LongAccIsFlat(k: Kernel, s: Bytes, d: Bytes)
    requires |s| >= 136 && |d| > 64
    ensures LongAcc(k, s, d)
         == k.accumulate512(Flat(k, s, d, (|d| - 1) / 64), d[|d| - 64..], s[|s| - 71..|s| - 7])
  {
    var n := (|d| - 1) / 64;
    AbsorbIsFlat(k, s, d, n, (|s| - 64) / 8);
    assert Body(d) == d[..64 * n];
    LastStripeIs(k, s, Flat(k, s, d, n), d[|d| - 64..]);
  }

  lemma LastStripeIs(k: Kernel, s: Bytes, acc: Acc, stripe: Bytes)
    requires |s| >= 136
    ensures LastStripe(k, s, acc, stripe) == k.accumulate512(acc, stripe, s[|s| - 71..|s| - 7])
  {
  }

  /** From 241 to 256 bytes with a secret of 192 bytes, step by step. */
  lemma FourStripes(k: Kernel, s: DefaultSecret, d: Bytes)
    requires 240 < |d| <= 256
    ensures LongAcc(k, s, d)
         == k.accumulate512(
              k.accumulate512(
                k.accumulate512(
                  k.accumulate512(k.initAcc, d[0..64], s[0..64]),
                  d[64..128], s[8..72]),
                d[128..192], s[16..80]),
              d[|d| - 64..], s[121..185])
  {
    LongAccIsFlat(k, s, d);
    var three := 3;
    assert (|d| - 1) / 64 == three;
    FlatStep(k, s, d, three);
    FlatStep(k, s, d, three - 1);
    FlatStep(k, s, d, three - 2);
  }

  lemma FlatStep(k: Kernel, s: DefaultSecret, d: Bytes, n: nat)
    requires 0 < n <= 16 && 64 * n <= |d|
    ensures var a := k.accumulate512(Flat(k, s, d, n - 1), d[64 * n - 64..64 * n], s[8 * n - 8..8 * n + 56]);
            Flat(k, s, d, n) == if n == 16 then k.scramble(a, s[128..192]) else a
  {
    Remainder(n - 1, 0, n - 1, 16);
    Remainder(n, if n == 16 then 1 else 0, if n == 16 then 0 else n, 16);
    FlatNext(k, s, d, n, 16, n - 1);
    assert s[128..192] == s[|s| - 64..];
  }

  lemma FlatNext(k: Kernel, s: Bytes, d: Bytes, n: nat, nb: nat, j: nat)
    requires |s| >= 136 && 0 < n && 64 * n <= |d| && nb == (|s| - 64) / 8 && j == (n - 1) % nb
    ensures var a := k.accumulate512(Flat(k, s, d, n - 1), d[64 * n - 64..64 * n], s[8 * j..8 * j + 64]);
            Flat(k, s, d, n) == if n % nb == 0 then k.scramble(a, s[|s| - 64..]) else a
  {
  }

  /** 1025 bytes with a secret of 192 bytes: one whole block of 16 stripes, the scramble, and the last stripe. */
  lemma OneBlockAndAByte(k: Kernel, s: DefaultSecret, d: Bytes)
    requires |d| == 1025
    ensures LongAcc(k, s, d)
         == k.accumulate512(
              k.scramble(k.accumulate512(Flat(k, s, d, 15), d[960..1024], s[120..184]), s[128..192]),
              d[961..1025], s[121..185])
  {
    LongAccIsFlat(k, s, d);
    var n := 16;
    assert (|d| - 1) / 64 == n;
    FlatStep(k, s, d, n);
    assert d[961..1025] == d[|d| - 64..] && s[121..185] == s[|s| - 71..|s| - 7];
  }

  // ---- which secret and which seed ----

  /** Up to 240 bytes only the mixers for short inputs are used: with the caller's secret when there is no seed,
      and otherwise with the default secret and the seed, even if the caller gave a secret. */
  lemma ShortInputs<H>(k: Kernel, o: Output<H>, secret: Bytes, seed: u64, d: Bytes)
    requires |d| <= 240 && 136 <= |secret| < 0x1_0000_0000_0000_0000
    ensures HashOf(k, o, Plain, d) == o.short(d, k.kSecret, 0)
    ensures HashOf(k, o, Seeded(seed), d) == o.short(d, k.kSecret, seed)
    ensures HashOf(k, o, Keyed(secret), d) == o.short(d, secret, 0)
    ensures HashOf(k, o, KeyedSeeded(secret, seed), d) == o.short(d, k.kSecret, seed)
  {
  }

  /** The accumulators of a long input, by number. */
  function AccOf(k: Kernel, s: Bytes, d: Bytes): Acc
    requires |s| >= 136 && |d| > 64
  {
    k.accumulate512(Flat(k, s, d, (|d| - 1) / 64), d[|d| - 64..], s[|s| - 71..|s| - 7])
  }

  /** Above 240 bytes the secret is the default one, the one derived from a seed that is not 0, or the caller's;
      a seed beside a caller's secret plays no part. */
  lemma LongInputs<H>(k: Kernel, o: Output<H>, secret: Bytes, seed: u64, d: Bytes)
    requires |d| > 240 && 136 <= |secret| < 0x1_0000_0000_0000_0000
    ensures HashOf(k, o, Plain, d) == o.finish(AccOf(k, k.kSecret, d), k.kSecret, |d|)
    ensures seed != 0 ==>
              HashOf(k, o, Seeded(seed), d) == o.finish(AccOf(k, k.initSecret(seed), d), k.initSecret(seed), |d|)
    ensures HashOf(k, o, Keyed(secret), d) == o.finish(AccOf(k, secret, d), secret, |d|)
    ensures HashOf(k, o, KeyedSeeded(secret, seed), d) == o.finish(AccOf(k, secret, d), secret, |d|)
  {
    LongAccIsFlat(k, k.kSecret, d);
    LongAccIsFlat(k, k.initSecret(seed), d);
    LongAccIsFlat(k, secret, d);
  }

  /** So seed 0 is no seed, and the default secret is no secret. */
  lemma NeutralModes<H>(k: Kernel, o: Output<H>, d: Bytes)
    ensures HashOf(k, o, Seeded(0), d) == HashOf(k, o, Plain, d) == HashOf(k, o, Keyed(k.kSecret), d)
  {
  }

  /** A secret with a seed is the seed alone up to 240 bytes and the secret alone above. */
  lemma SecretAndSeed<H>(k: Kernel, o: Output<H>, secret: Bytes, seed: u64, d: Bytes)
    requires 136 <= |secret| < 0x1_0000_0000_0000_0000
    ensures HashOf(k, o, KeyedSeeded(secret, seed), d)
         == HashOf(k, o, if |d| <= 240 then Seeded(seed) else Keyed(secret), d)
  {
  }
}
