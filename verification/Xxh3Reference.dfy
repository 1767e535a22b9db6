/** XXH3 for inputs longer than 240 bytes, one stripe at a time: the definition that both the one-shot
    block loop and the streaming state of dse/clib/data/xxhash.h are compared with. */
module Xxh3Reference {
  import opened Widths
  import opened Words

  const STRIPE: nat := 64
  const RATE: nat := 8
  const SECRET_MIN: nat := 136
  const LAST_ACC_START: nat := 7
  const MIDSIZE_MAX: nat := 240

  type Acc = a: seq<u64> | |a| == 8 witness [0, 0, 0, 0, 0, 0, 0, 0]
  type DefaultSecret = s: Bytes | |s| == 192 witness seq(192, i => 0)

  /** The function pointers the long-hash code is handed (f_acc by its 64-byte step, f_scramble,
      f_initSec), with the two constants beside them. */
  datatype Kernel = Kernel(
    accumulate512: (Acc, Bytes, Bytes) -> Acc,
    scramble: (Acc, Bytes) -> Acc,
    initSecret: u64 -> DefaultSecret,
    kSecret: DefaultSecret,
    initAcc: Acc)

  /** The accumulators and the number of stripes taken in since the last scramble. */
  datatype Progress = Progress(acc: Acc, soFar: nat)

  function StripesPerBlock(secret: Bytes): (n: nat)
    requires |secret| >= SECRET_MIN
    ensures n >= 9 && RATE * n + STRIPE <= |secret|
  {
    (|secret| - STRIPE) / RATE
  }

  function ScrambleKey(secret: Bytes): Bytes
    requires |secret| >= SECRET_MIN
  {
    secret[|secret| - STRIPE..]
  }

  /** Take in one stripe; the stripe that completes a block is followed by a scramble. */
  function Step(k: Kernel, secret: Bytes, p: Progress, stripe: Bytes): (q: Progress)
    requires |secret| >= SECRET_MIN && p.soFar < StripesPerBlock(secret)
    ensures q.soFar < StripesPerBlock(secret)
  {
    var a := k.accumulate512(p.acc, stripe, secret[RATE * p.soFar..RATE * p.soFar + STRIPE]);
    if p.soFar + 1 == StripesPerBlock(secret) then Progress(k.scramble(a, ScrambleKey(secret)), 0)
    else Progress(a, p.soFar + 1)
  }

  /** Take in a whole number of stripes. */
  function Absorb(k: Kernel, secret: Bytes, p: Progress, data: Bytes): (q: Progress)
    requires |secret| >= SECRET_MIN && p.soFar < StripesPerBlock(secret) && |data| % STRIPE == 0
    ensures q.soFar < StripesPerBlock(secret)
    decreases |data|
  {
    if data == [] then p else Absorb(k, secret, Step(k, secret, p, data[..STRIPE]), data[STRIPE..])
  }

  function Start(k: Kernel): Progress {
    Progress(k.initAcc, 0)
  }

  /** The bytes that are taken in as stripes before the last one: at least one byte is always kept back. */
  function Body(data: Bytes): (b: Bytes)
    requires |data| > 0
    ensures |b| % STRIPE == 0 && |b| < |data| <= |b| + STRIPE
  {
    data[..(|data| - 1) / STRIPE * STRIPE]
  }

  /** The accumulators of a long input: all stripes before the last byte, then the last 64 bytes with a
      secret offset of their own. */
  function LongAcc(k: Kernel, secret: Bytes, data: Bytes): Acc
    requires |secret| >= SECRET_MIN && |data| > STRIPE
  {
    LastStripe(k, secret, Absorb(k, secret, Start(k), Body(data)).acc, data[|data| - STRIPE..])
  }

  function LastStripe(k: Kernel, secret: Bytes, acc: Acc, stripe: Bytes): Acc
    requires |secret| >= SECRET_MIN
  {
    var at := |secret| - STRIPE - LAST_ACC_START;
    k.accumulate512(acc, stripe, secret[at..at + STRIPE])
  }

  lemma {:induction false} AbsorbConcat(k: Kernel, secret: Bytes, p: Progress, x: Bytes, y: Bytes)
    requires |secret| >= SECRET_MIN && p.soFar < StripesPerBlock(secret)
    requires |x| % STRIPE == 0 && |y| % STRIPE == 0
    ensures |x + y| % STRIPE == 0
    ensures Absorb(k, secret, p, x + y) == Absorb(k, secret, Absorb(k, secret, p, x), y)
    decreases |x|
  {
    if x == [] {
      assert x + y == y;
    } else {
      AbsorbConcat(k, secret, Step(k, secret, p, x[..STRIPE]), x[STRIPE..], y);
      assert (x + y)[..STRIPE] == x[..STRIPE] && (x + y)[STRIPE..] == x[STRIPE..] + y;
    }
  }

  /** XXH3_accumulate: consecutive stripes against a secret that advances with them, without scrambling. */
  function Accumulated(k: Kernel, acc: Acc, data: Bytes, secret: Bytes): Acc
    requires |data| % STRIPE == 0 && |secret| >= |data| / STRIPE * RATE + STRIPE - RATE
    decreases |data|
  {
    if data == [] then acc
    else Accumulated(k, k.accumulate512(acc, data[..STRIPE], secret[..STRIPE]), data[STRIPE..], secret[RATE..])
  }

  /** A run of stripes inside one block is one XXH3_accumulate, with a scramble if it ends the block. */
  lemma {:induction false} RunInBlock(k: Kernel, secret: Bytes, p: Progress, data: Bytes)
    requires |secret| >= SECRET_MIN && |data| % STRIPE == 0 && data != []
    requires p.soFar + |data| / STRIPE <= StripesPerBlock(secret)
    ensures var a := Accumulated(k, p.acc, data, secret[RATE * p.soFar..]);
            Absorb(k, secret, p, data) ==
              if p.soFar + |data| / STRIPE == StripesPerBlock(secret)
              then Progress(k.scramble(a, ScrambleKey(secret)), 0)
              else Progress(a, p.soFar + |data| / STRIPE)
    decreases |data|
  {
    var s := secret[RATE * p.soFar..];
    assert s[..STRIPE] == secret[RATE * p.soFar..RATE * p.soFar + STRIPE];
    var q := Step(k, secret, p, data[..STRIPE]);
    var rest := data[STRIPE..];
    if rest != [] {
      assert |rest| / STRIPE == |data| / STRIPE - 1 >= 1;
      RunInBlock(k, secret, q, rest);
      assert s[RATE..] == secret[RATE * q.soFar..];
    } else {
      assert |data| == STRIPE;
    }
  }

  // ---- the public hash functions ----

  /** Which reset (and which one-shot function) is used. */
  datatype Mode = Plain | Seeded(seed: u64) | Keyed(secret: Bytes) | KeyedSeeded(secret: Bytes, seed: u64)

  predicate Legal(m: Mode) {
    (m.Keyed? || m.KeyedSeeded?) ==> SECRET_MIN <= |m.secret| < TWO_64
  }

  /** The short-input mixers and the finalisers: the only code the 64- and 128-bit variants do not share. */
  datatype Output<!H> = Output(short: (Bytes, Bytes, u64) -> H, finish: (Acc, Bytes, nat) -> H)

  /** The secret of a long input. */
  function LongSecret(k: Kernel, m: Mode): (s: Bytes)
    requires Legal(m)
    ensures |s| >= SECRET_MIN
  {
    match m
    case Plain => k.kSecret
    case Seeded(seed) => if seed == 0 then k.kSecret else k.initSecret(seed)
    case Keyed(secret) => secret
    case KeyedSeeded(secret, _) => secret
  }

  /** XXH3_64bits / XXH3_128bits and their withSeed, withSecret and withSecretandSeed variants. */
  function HashOf<H>(k: Kernel, o: Output<H>, m: Mode, data: Bytes): H
    requires Legal(m)
  {
    if |data| <= MIDSIZE_MAX then
      match m
      case Plain => o.short(data, k.kSecret, 0)
      case Seeded(seed) => o.short(data, k.kSecret, seed)
      case Keyed(secret) => o.short(data, secret, 0)
      case KeyedSeeded(_, seed) => o.short(data, k.kSecret, seed)
    else
      o.finish(LongAcc(k, LongSecret(k, m), data), LongSecret(k, m), |data|)
  }
}
