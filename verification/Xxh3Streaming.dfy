/** The XXH3 streaming state of dse/clib/data/xxhash.h: reset, update, digest. */
module Xxh3Streaming {
  import opened Widths
  import opened Words
  import opened Xxh3Reference
  import opened Xxh3Loops

  const BUFFER: nat := 256

  /** A caller's secret pointer: NULL or the bytes it points at. */
  datatype Pointer = Null | To(bytes: Bytes)
  datatype ErrorCode = Ok | Error

  class State {
    const kernel: Kernel
    const acc: array<u64>
    const customSecret: array<u8>
    const buffer: array<u8>
    var bufferedSize: nat
    var useSeed: bool
    var nbStripesSoFar: nat
    var totalLen: nat
    var nbStripesPerBlock: nat
    var secretLimit: nat
    var seed: u64
    var extSecret: Pointer

    /** What the last successful reset asked for, and the input since; `live` after such a reset. */
    ghost var live: bool
    ghost var mode: Mode
    ghost var fed: Bytes

    ghost predicate Shaped()
      reads this
    {
      && acc.Length == 8 && customSecret.Length == 192 && buffer.Length == BUFFER && buffer != customSecret
    }

    /** The seeded secret is never stale: skipping its regeneration is sound. */
    ghost predicate CacheCoherent()
      reads this, customSecret
    {
      extSecret.Null? && seed != 0 ==> customSecret[..] == kernel.initSecret(seed)
    }

    ghost function Secret(): Bytes
      reads this, customSecret
    {
      if extSecret.Null? then customSecret[..] else extSecret.bytes
    }

    /** The mode the fields stand for. */
    ghost predicate Configured()
      reads this, customSecret
      requires live
    {
      && Legal(mode)
      && Secret() == LongSecret(kernel, mode)
      && secretLimit == |Secret()| - STRIPE && nbStripesPerBlock == StripesPerBlock(Secret())
      && Matches(mode)
    }

    ghost predicate Matches(m: Mode)
      reads this
    {
      match m
      case Plain => !useSeed && extSecret == To(kernel.kSecret)
      case Seeded(s) => if s == 0 then !useSeed && extSecret == To(kernel.kSecret) else useSeed && seed == s
      case Keyed(secret) => !useSeed && extSecret == To(secret)
      case KeyedSeeded(secret, s) => useSeed && seed == s && extSecret == To(secret)
    }

    /** The accumulators hold exactly these bytes, a whole number of stripes. */
    ghost predicate Took(data: Bytes)
      reads this, customSecret, acc
      requires Shaped() && live && Configured()
    {
      && |data| % STRIPE == 0
      && nbStripesSoFar < nbStripesPerBlock
      && Progress(acc[..], nbStripesSoFar) == Absorb(kernel, Secret(), Start(kernel), data)
    }

    /** The end of the buffer, from slot `from` on, is still the end of these bytes. */
    ghost predicate Tail(data: Bytes, from: nat)
      reads this, buffer
      requires Shaped()
    {
      && |data| >= BUFFER
      && forall j :: BUFFER - STRIPE <= j < BUFFER && from <= j ==> buffer[j] == data[|data| - BUFFER + j]
    }

    /** The accumulators hold the stripes taken in so far; the buffer holds the rest of the input and,
        above it, what is left of the 64 bytes that came before. */
    ghost predicate Streams()
      reads this, customSecret, acc, buffer
      requires Shaped() && live && Configured()
    {
      && totalLen == |fed| < TWO_64
      && bufferedSize <= BUFFER && bufferedSize <= |fed|
      && var before := fed[..|fed| - bufferedSize];
      && Took(before)
      && buffer[..bufferedSize] == fed[|before|..]
      && (before != [] ==> bufferedSize > 0 && Tail(before, bufferedSize))
    }

    ghost predicate Valid()
      reads this, customSecret, acc, buffer
    {
      Shaped() && CacheCoherent() && (live ==> Configured() && Streams())
    }

    /** XXH3_createState: XXH3_INITSTATE sets the seed and nothing else that matters. */
    constructor (kernel: Kernel)
      ensures Valid() && !live && this.kernel == kernel
      ensures fresh(acc) && fresh(customSecret) && fresh(buffer)
    {
      this.kernel := kernel;
      acc := new u64[8](i => 0);
      customSecret := new u8[192](i => 0);
      buffer := new u8[BUFFER](i => 0);
      bufferedSize, useSeed, nbStripesSoFar, totalLen, nbStripesPerBlock, secretLimit := 0, false, 0, 0, 0, 0;
      seed := 0;
      extSecret := Null;
      live, mode, fed := false, Plain, [];
    }

    /** XXH3_reset_internal; the secret size is a size_t. */
    method ResetInternal(seed: u64, secret: Pointer, secretSize: nat)
      requires Shaped()
      modifies this, acc
      ensures bufferedSize == 0 && nbStripesSoFar == 0 && totalLen == 0
      ensures this.seed == seed && useSeed == (seed != 0) && extSecret == secret
      ensures secretSize >= STRIPE ==> secretLimit == secretSize - STRIPE
      ensures nbStripesPerBlock == secretLimit / RATE
      ensures acc[..] == kernel.initAcc
      ensures live == old(live) && mode == old(mode) && fed == old(fed)
    {
      bufferedSize, useSeed, nbStripesSoFar, totalLen := 0, false, 0, 0;
      StoreAcc(acc, kernel.initAcc);
      this.seed := seed;
      useSeed := seed != 0;
      extSecret := secret;
      secretLimit := if secretSize >= STRIPE then secretSize - STRIPE else secretSize + TWO_64 - STRIPE;
      nbStripesPerBlock := secretLimit / RATE;
    }

    /** The state after a reset stands for a mode and an empty input. */
    ghost method Begin(m: Mode)
      requires Shaped() && CacheCoherent() && Legal(m)
      requires bufferedSize == 0 && nbStripesSoFar == 0 && totalLen == 0 && acc[..] == kernel.initAcc
      requires Secret() == LongSecret(kernel, m)
      requires secretLimit == |Secret()| - STRIPE && nbStripesPerBlock == secretLimit / RATE
      requires Matches(m)
      modifies `live, `mode, `fed
      ensures Valid() && live && mode == m && fed == []
    {
      live, mode, fed := true, m, [];
      assert Took([]);
    }

    /** XXH3_64bits_reset, XXH3_128bits_reset. */
    method Reset()
      requires Valid()
      modifies this, acc
      ensures Valid() && live && mode == Plain && fed == []
    {
      ResetInternal(0, To(kernel.kSecret), 192);
      Begin(Plain);
    }

    /** XXH3_64bits_reset_withSecret: the fields are set before the arguments are checked. */
    method ResetWithSecret(secret: Pointer) returns (rc: ErrorCode)
      requires Valid() && (secret.To? ==> |secret.bytes| < TWO_64)
      modifies this, acc
      ensures Valid()
      ensures rc == Ok <==> secret.To? && |secret.bytes| >= 136
      ensures rc == Ok ==> live && mode == Keyed(secret.bytes) && fed == []
      ensures rc == Error ==> !live
    {
      live := false;
      ResetInternal(0, secret, if secret.To? then |secret.bytes| else 0);
      if secret.Null? || |secret.bytes| < SECRET_MIN {
        return Error;
      }
      Begin(Keyed(secret.bytes));
      rc := Ok;
    }

    /** XXH3_64bits_reset_withSeed: the seeded secret is generated only if the state might not hold it. */
    method ResetWithSeed(seed: u64)
      requires Valid()
      modifies this, acc, customSecret
      ensures Valid() && live && mode == Seeded(seed) && fed == []
    {
      if seed == 0 {
        ResetInternal(0, To(kernel.kSecret), 192);
      } else {
        if seed != this.seed || extSecret.To? {
          CopyTo(customSecret, 0, kernel.initSecret(seed));
        }
        assert customSecret[..] == kernel.initSecret(seed);
        ResetInternal(seed, Null, 192);
      }
      Begin(Seeded(seed));
    }

    /** XXH3_64bits_reset_withSecretandSeed: the arguments are checked first, and useSeed is always set. */
    method ResetWithSecretAndSeed(secret: Pointer, seed: u64) returns (rc: ErrorCode)
      requires Valid() && (secret.To? ==> |secret.bytes| < TWO_64)
      modifies this, acc
      ensures Valid()
      ensures rc == Ok <==> secret.To? && |secret.bytes| >= 136
      ensures rc == Ok ==> live && mode == KeyedSeeded(secret.bytes, seed) && fed == []
      ensures rc == Error ==> live == old(live) && mode == old(mode) && fed == old(fed)
    {
      if secret.Null? || |secret.bytes| < SECRET_MIN {
        return Error;
      }
      ResetInternal(seed, secret, |secret.bytes|);
      useSeed := true;
      Begin(KeyedSeeded(secret.bytes, seed));
      rc := Ok;
    }

    /** XXH3_update, first part: complete a buffer that is not empty and take it in. */
    method TakeBuffer(input: Bytes, secret: Bytes, ghost before: Bytes)
      returns (rest: Bytes, ghost before': Bytes)
      requires Shaped() && live && Configured() && secret == Secret() && Took(before)
      requires bufferedSize <= BUFFER && BUFFER - bufferedSize < |input|
      requires bufferedSize == 0 ==> before == []
      modifies acc, buffer, `bufferedSize, `nbStripesSoFar
      ensures Configured() && bufferedSize == 0 && rest != []
      ensures before' + rest == before + old(buffer[..bufferedSize]) + input
      ensures Took(before') && (before' != [] ==> Tail(before', 0))
    {
      rest, before' := input, before;
      if bufferedSize != 0 {
        var loadSize := BUFFER - bufferedSize;
        CopyTo(buffer, bufferedSize, input[..loadSize]);
        rest := input[loadSize..];
        assert buffer[..] == old(buffer[..bufferedSize]) + input[..loadSize];
        AbsorbConcat(kernel, secret, Start(kernel), before, buffer[..]);
        before' := before + buffer[..];
        nbStripesSoFar := ConsumeStripes(kernel, acc, nbStripesSoFar, nbStripesPerBlock,
                                         buffer[..], BUFFER / STRIPE, secret);
        bufferedSize := 0;
      }
    }

    /** XXH3_update, second part: take in what does not fit the buffer, keeping its last 64 bytes there. */
    method TakeStripes(rest: Bytes, secret: Bytes, ghost before: Bytes)
      returns (rest': Bytes, ghost before': Bytes)
      requires Shaped() && live && Configured() && secret == Secret()
      requires rest != [] && Took(before) && (before != [] ==> Tail(before, 0))
      modifies acc, buffer, `nbStripesSoFar
      ensures Configured() && 0 < |rest'| <= BUFFER
      ensures before' + rest' == before + rest
      ensures Took(before') && (before' != [] ==> Tail(before', 0))
    {
      rest', before' := rest, before;
      if |rest| > BUFFER {
        var nbStripes := (|rest| - 1) / STRIPE;
        var data := rest[..STRIPE * nbStripes];
        AbsorbConcat(kernel, secret, Start(kernel), before, data);
        before' := before + data;
        nbStripesSoFar := ConsumeStripes(kernel, acc, nbStripesSoFar, nbStripesPerBlock, data, nbStripes, secret);
        CopyTo(buffer, BUFFER - STRIPE, data[|data| - STRIPE..]);
        rest' := rest[STRIPE * nbStripes..];
      }
    }

    /** XXH3_update on a small input: it fits the buffer. */
    method FillBuffer(input: Bytes)
      requires Valid() && live && |fed| + |input| < TWO_64 && |input| <= BUFFER - bufferedSize
      modifies this, buffer
      ensures Valid() && live && mode == old(mode) && fed == old(fed) + input
    {
      ghost var before, held := fed[..|fed| - bufferedSize], buffer[..bufferedSize];
      assert fed == before + held;
      CopyTo(buffer, bufferedSize, input);
      bufferedSize := bufferedSize + |input|;
      totalLen := totalLen + |input|;
      fed := fed + input;
      assert fed[..|fed| - bufferedSize] == before;
      assert Took(before);
      assert buffer[..bufferedSize] == held + input;
      assert fed == before + (held + input);
    }

    /** XXH3_update, last part: what remains goes to the start of the buffer. */
    method Refill(last: Bytes, ghost before: Bytes)
      requires Shaped() && CacheCoherent() && live && Configured() && totalLen == |before + last| < TWO_64
      requires 0 < |last| <= BUFFER && Took(before) && (before != [] ==> Tail(before, 0))
      modifies this, buffer
      ensures Valid() && live && mode == old(mode) && fed == before + last
    {
      CopyTo(buffer, 0, last);
      bufferedSize := |last|;
      fed := before + last;
      assert Took(before);
      assert fed[..|fed| - bufferedSize] == before;
      assert buffer[..bufferedSize] == last;
      assert before != [] ==> Tail(before, bufferedSize);
    }

    /** XXH3_update on an input that fills the buffer and more. */
    method TakeLarge(input: Bytes)
      requires Valid() && live && |fed| + |input| < TWO_64 && |input| > BUFFER - bufferedSize
      modifies this, acc, buffer
      ensures Valid() && live && mode == old(mode) && fed == old(fed) + input
    {
      var secret := if extSecret.Null? then customSecret[..] else extSecret.bytes;
      ghost var before := fed[..|fed| - bufferedSize];
      assert fed == before + buffer[..bufferedSize];
      totalLen := totalLen + |input|;
      var rest, last;
      rest, before := TakeBuffer(input, secret, before);
      last, before := TakeStripes(rest, secret, before);
      Refill(last, before);
    }

    /** XXH3_64bits_update, XXH3_128bits_update. */
    method Update(input: Bytes)
      requires Valid() && live && |fed| + |input| < TWO_64
      modifies this, acc, buffer
      ensures Valid() && live && mode == old(mode) && fed == old(fed) + input
    {
      if |input| <= BUFFER - bufferedSize {
        FillBuffer(input);
      } else {
        TakeLarge(input);
      }
    }

    /** The last 64 bytes of the input, from the buffer or across its ends. */
    method LastBytes() returns (stripe: Bytes)
      requires Valid() && live && totalLen > MIDSIZE_MAX
      ensures stripe == fed[|fed| - STRIPE..]
    {
      ghost var before := fed[..|fed| - bufferedSize];
      if bufferedSize >= STRIPE {
        stripe := buffer[bufferedSize - STRIPE..bufferedSize];
        assert stripe == buffer[..bufferedSize][bufferedSize - STRIPE..];
      } else {
        var catchupSize := STRIPE - bufferedSize;
        stripe := buffer[BUFFER - catchupSize..] + buffer[..bufferedSize];
        assert buffer[BUFFER - catchupSize..] == before[|before| - catchupSize..];
      }
    }

    /** XXH3_digest_long, first part: on a copy of the accumulators, the stripes still in the buffer. */
    method TakeRest(secret: Bytes) returns (a: array<u64>)
      requires Valid() && live && secret == Secret() && totalLen > MIDSIZE_MAX
      ensures fresh(a) && a.Length == 8
      ensures a[..] == Absorb(kernel, secret, Start(kernel), Body(fed)).acc
    {
      a := new u64[8](i => 0);
      StoreAcc(a, acc[..]);
      ghost var before := fed[..|fed| - bufferedSize];
      if bufferedSize >= STRIPE {
        var nbStripes := (bufferedSize - 1) / STRIPE;
        var data := buffer[..STRIPE * nbStripes];
        BodyOfBuffered(fed, before, buffer[..bufferedSize]);
        assert data == buffer[..bufferedSize][..STRIPE * nbStripes];
        AbsorbConcat(kernel, secret, Start(kernel), before, data);
        var soFar := ConsumeStripes(kernel, a, nbStripesSoFar, nbStripesPerBlock, data, nbStripes, secret);
      } else {
        assert before == Body(fed);
      }
    }

    /** XXH3_digest_long. */
    method DigestLong(secret: Bytes) returns (a: array<u64>)
      requires Valid() && live && secret == Secret() && totalLen > MIDSIZE_MAX
      ensures fresh(a) && a.Length == 8 && a[..] == LongAcc(kernel, secret, fed)
    {
      var lastStripe := LastBytes();
      a := TakeRest(secret);
      var at := secretLimit - LAST_ACC_START;
      StoreAcc(a, kernel.accumulate512(a[..], lastStripe, secret[at..at + STRIPE]));
    }

    /** XXH3_64bits_digest and XXH3_128bits_digest, by the mixers handed in: the hash the one-shot function
        of the same mode gives for everything fed since the reset, however it was cut up. */
    method Digest<H>(o: Output<H>) returns (h: H)
      requires Valid() && live
      ensures h == HashOf(kernel, o, mode, fed)
    {
      var secret := if extSecret.Null? then customSecret[..] else extSecret.bytes;
      if totalLen > MIDSIZE_MAX {
        var a := DigestLong(secret);
        h := o.finish(a[..], secret, totalLen);
      } else {
        assert bufferedSize == |fed| && buffer[..totalLen] == fed;
        if useSeed {
          h := o.short(buffer[..totalLen], kernel.kSecret, seed);
        } else {
          h := o.short(buffer[..totalLen], secret, 0);
        }
      }
    }
  }

  /** The one-shot functions, with the block loop for long inputs. */
  method OneShot<H>(k: Kernel, o: Output<H>, m: Mode, input: Bytes) returns (h: H)
    requires Legal(m)
    ensures h == HashOf(k, o, m, input)
  {
    if |input| <= MIDSIZE_MAX {
      match m {
        case Plain => h := o.short(input, k.kSecret, 0);
        case Seeded(seed) => h := o.short(input, k.kSecret, seed);
        case Keyed(secret) => h := o.short(input, secret, 0);
        case KeyedSeeded(_, seed) => h := o.short(input, k.kSecret, seed);
      }
    } else {
      var secret: Bytes := k.kSecret;
      match m {
        case Plain =>
        case Seeded(seed) => if seed != 0 { secret := k.initSecret(seed); }
        case Keyed(s) => secret := s;
        case KeyedSeeded(s, _) => secret := s;
      }
      var acc := new u64[8](i => 0);
      StoreAcc(acc, k.initAcc);
      HashLong(k, acc, input, secret);
      h := o.finish(acc[..], secret, |input|);
    }
  }

  method Prepared(k: Kernel, m: Mode) returns (s: State)
    requires Legal(m)
    ensures fresh(s) && fresh(s.acc) && fresh(s.buffer)
    ensures s.Valid() && s.live && s.mode == m && s.kernel == k && s.fed == []
  {
    s := new State(k);
    match m {
      case Plain => s.Reset();
      case Seeded(seed) => s.ResetWithSeed(seed);
      case Keyed(secret) => var rc := s.ResetWithSecret(To(secret));
      case KeyedSeeded(secret, seed) => var rc := s.ResetWithSecretAndSeed(To(secret), seed);
    }
  }

  /** A whole run, in any mode and for any chunking: create, reset, one update a chunk, digest. */
  method StreamChunks<H>(k: Kernel, o: Output<H>, m: Mode, chunks: seq<Bytes>) returns (h: H)
    requires Legal(m) && |Joined(chunks)| < TWO_64
    ensures h == HashOf(k, o, m, Joined(chunks))
  {
    var s := Prepared(k, m);
    var i := 0;
    while i < |chunks|
      invariant 0 <= i <= |chunks| && fresh(s) && fresh(s.acc) && fresh(s.buffer)
      invariant s.Valid() && s.live && s.mode == m && s.kernel == k && s.fed == Joined(chunks[..i])
      invariant |Joined(chunks[..i])| < TWO_64
    {
      JoinedLength(chunks, i + 1);
      assert chunks[..i + 1][..i] == chunks[..i];
      s.Update(chunks[i]);
      i := i + 1;
    }
    assert chunks[..i] == chunks;
    h := s.Digest(o);
  }

  /** The stripes before the last byte are those taken in and those at the start of the buffer. */
  lemma BodyOfBuffered(fed: Bytes, before: Bytes, buffered: Bytes)
    requires fed == before + buffered && |before| % STRIPE == 0 && buffered != []
    ensures before + buffered[..STRIPE * ((|buffered| - 1) / STRIPE)] == Body(fed)
  {
  }
}
