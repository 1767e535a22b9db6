/** The loops over stripes and blocks in dse/clib/data/xxhash.h, which update the accumulators in place. */
module Xxh3Loops {
  import opened Words
  import opened Xxh3Reference

  method StoreAcc(acc: array<u64>, v: Acc)
    requires acc.Length == 8
    modifies acc
    ensures acc[..] == v
  {
    for i := 0 to 8
      invariant acc[..i] == v[..i]
    {
      acc[i] := v[i];
    }
  }

  /** XXH3_accumulate. */
  method Accumulate(k: Kernel, acc: array<u64>, input: Bytes, secret: Bytes, nbStripes: nat)
    requires acc.Length == 8 && |input| == STRIPE * nbStripes
    requires |secret| >= nbStripes * RATE + STRIPE - RATE
    modifies acc
    ensures acc[..] == Accumulated(k, old(acc[..]), input, secret)
  {
    var n := 0;
    while n < nbStripes
      invariant 0 <= n <= nbStripes
      invariant Accumulated(k, acc[..], input[n * STRIPE..], secret[n * RATE..])
             == Accumulated(k, old(acc[..]), input, secret)
    {
      ghost var data, s := input[n * STRIPE..], secret[n * RATE..];
      assert data[..STRIPE] == input[n * STRIPE..n * STRIPE + STRIPE] && s[..STRIPE] == secret[n * RATE..n * RATE + STRIPE];
      assert data[STRIPE..] == input[(n + 1) * STRIPE..] && s[RATE..] == secret[(n + 1) * RATE..];
      StoreAcc(acc, k.accumulate512(acc[..], input[n * STRIPE..n * STRIPE + STRIPE], secret[n * RATE..n * RATE + STRIPE]));
      n := n + 1;
    }
    assert input[n * STRIPE..] == [];
  }

  /** Part of a run of stripes that stays inside one block, then the scramble that may end the block. */
  method AccumulateBlock(k: Kernel, acc: array<u64>, input: Bytes, secret: Bytes, soFar: nat, nbStripes: nat)
    requires acc.Length == 8 && |input| == STRIPE * nbStripes && nbStripes > 0
    requires |secret| >= SECRET_MIN && soFar + nbStripes <= StripesPerBlock(secret)
    modifies acc
    ensures Absorb(k, secret, Progress(old(acc[..]), soFar), input)
         == Progress(acc[..], if soFar + nbStripes == StripesPerBlock(secret) then 0 else soFar + nbStripes)
  {
    RunInBlock(k, secret, Progress(acc[..], soFar), input);
    Accumulate(k, acc, input, secret[RATE * soFar..], nbStripes);
    if soFar + nbStripes == StripesPerBlock(secret) {
      StoreAcc(acc, k.scramble(acc[..], ScrambleKey(secret)));
    }
  }

  /** XXH3_consumeStripes: full blocks first, beginning with the one already started, then the rest.
      It has the effect of taking the stripes in one by one. */
  method ConsumeStripes(k: Kernel, acc: array<u64>, soFar: nat, nbStripesPerBlock: nat,
                        input: Bytes, nbStripes0: nat, secret: Bytes)
    returns (soFar': nat)
    requires acc.Length == 8 && |input| == STRIPE * nbStripes0
    requires |secret| >= SECRET_MIN && nbStripesPerBlock == StripesPerBlock(secret) && soFar < nbStripesPerBlock
    modifies acc
    ensures Progress(acc[..], soFar') == Absorb(k, secret, Progress(old(acc[..]), soFar), input)
  {
    var rest, nbStripes := input, nbStripes0;
    soFar' := soFar;
    if nbStripes >= nbStripesPerBlock - soFar {
      var thisIter := nbStripesPerBlock - soFar;
      var again := true;
      while again
        invariant |rest| == STRIPE * nbStripes
        invariant soFar' < nbStripesPerBlock
        invariant if again then thisIter == nbStripesPerBlock - soFar' <= nbStripes
                  else soFar' == 0 && nbStripes < nbStripesPerBlock
        invariant Absorb(k, secret, Progress(acc[..], soFar'), rest)
               == Absorb(k, secret, Progress(old(acc[..]), soFar), input)
        decreases nbStripes, again
      {
        var block := rest[..STRIPE * thisIter];
        AbsorbConcat(k, secret, Progress(acc[..], soFar'), block, rest[STRIPE * thisIter..]);
        assert rest == block + rest[STRIPE * thisIter..];
        AccumulateBlock(k, acc, block, secret, soFar', thisIter);
        rest := rest[STRIPE * thisIter..];
        nbStripes := nbStripes - thisIter;
        thisIter := nbStripesPerBlock;
        soFar' := 0;
        again := nbStripes >= nbStripesPerBlock;
      }
    }
    if nbStripes > 0 {
      AccumulateBlock(k, acc, rest, secret, soFar', nbStripes);
      soFar' := soFar' + nbStripes;
    }
  }

  /** The loop over whole blocks in XXH3_hashLong_internal_loop. */
  method WholeBlocks(k: Kernel, acc: array<u64>, input: Bytes, secret: Bytes, blockLen: nat, nbBlocks: nat)
    requires acc.Length == 8 && |secret| >= SECRET_MIN && blockLen == STRIPE * StripesPerBlock(secret)
    requires |input| == nbBlocks * blockLen && |input| % STRIPE == 0
    modifies acc
    ensures Progress(acc[..], 0) == Absorb(k, secret, Progress(old(acc[..]), 0), input)
  {
    var rest, n := input, 0;
    while n < nbBlocks
      invariant n <= nbBlocks && |rest| == (nbBlocks - n) * blockLen && |rest| % STRIPE == 0
      invariant Absorb(k, secret, Progress(acc[..], 0), rest)
             == Absorb(k, secret, Progress(old(acc[..]), 0), input)
    {
      OneBlockLess(nbBlocks - n, blockLen);
      rest := OneBlock(k, acc, rest, secret, blockLen);
      n := n + 1;
    }
    assert rest == [];
  }

  method OneBlock(k: Kernel, acc: array<u64>, rest: Bytes, secret: Bytes, blockLen: nat) returns (after: Bytes)
    requires acc.Length == 8 && |secret| >= SECRET_MIN && blockLen == STRIPE * StripesPerBlock(secret)
    requires |rest| >= blockLen && |rest| % STRIPE == 0
    modifies acc
    ensures |after| == |rest| - blockLen && |after| % STRIPE == 0
    ensures Absorb(k, secret, Progress(acc[..], 0), after)
         == Absorb(k, secret, Progress(old(acc[..]), 0), rest)
  {
    after := rest[blockLen..];
    assert rest == rest[..blockLen] + after;
    AbsorbConcat(k, secret, Progress(acc[..], 0), rest[..blockLen], after);
    AccumulateBlock(k, acc, rest[..blockLen], secret, 0, StripesPerBlock(secret));
  }

  lemma OneBlockLess(n: nat, blockLen: nat)
    requires n > 0
    ensures n * blockLen == (n - 1) * blockLen + blockLen
    ensures n * blockLen >= blockLen
  {
  }

  /** How an input divides: whole blocks, then stripes of a block not finished, before the last byte. */
  method Plan(len: nat, nbStripesPerBlock: nat) returns (nbBlocks: nat, start: nat, nbStripes: nat)
    requires len > 0 && nbStripesPerBlock > 0
    ensures start == nbBlocks * (STRIPE * nbStripesPerBlock) && start % STRIPE == 0
    ensures start + STRIPE * nbStripes == (len - 1) / STRIPE * STRIPE && nbStripes < nbStripesPerBlock
  {
    var blockLen := STRIPE * nbStripesPerBlock;
    nbBlocks := (len - 1) / blockLen;
    start := nbBlocks * blockLen;
    DivideWithRest(len - 1, blockLen);
    nbStripes := (len - 1 - start) / STRIPE;
    StripesOfBlocks(nbBlocks, nbStripesPerBlock, len - 1 - start);
  }

  lemma DivideWithRest(x: nat, d: nat)
    requires d > 0
    ensures x / d * d <= x < x / d * d + d
  {
  }

  /** XXH3_hashLong_internal_loop: whole blocks, the last partial block, the last stripe. */
  method HashLong(k: Kernel, acc: array<u64>, input: Bytes, secret: Bytes)
    requires acc.Length == 8 && acc[..] == k.initAcc
    requires |secret| >= SECRET_MIN && |input| > MIDSIZE_MAX
    modifies acc
    ensures acc[..] == LongAcc(k, secret, input)
  {
    var nbStripesPerBlock := (|secret| - STRIPE) / RATE;
    var nbBlocks, start, nbStripes := Plan(|input|, nbStripesPerBlock);
    var blocks, last := input[..start], input[start..start + STRIPE * nbStripes];
    assert blocks + last == Body(input);
    AbsorbConcat(k, secret, Start(k), blocks, last);
    WholeBlocks(k, acc, blocks, secret, STRIPE * nbStripesPerBlock, nbBlocks);
    if nbStripes > 0 {
      AccumulateBlock(k, acc, last, secret, 0, nbStripes);
    }
    var at := |secret| - STRIPE - LAST_ACC_START;
    StoreAcc(acc, k.accumulate512(acc[..], input[|input| - STRIPE..], secret[at..at + STRIPE]));
  }

  lemma StripesOfBlocks(blocks: nat, nb: nat, r: nat)
    requires r < STRIPE * nb
    ensures blocks * (STRIPE * nb) % STRIPE == 0
    ensures (blocks * (STRIPE * nb) + r) / STRIPE * STRIPE == blocks * (STRIPE * nb) + STRIPE * (r / STRIPE)
    ensures r / STRIPE < nb
  {
    Regroup(blocks, nb);
    StripesOf(blocks * nb, r);
  }

  lemma Regroup(blocks: nat, nb: nat)
    ensures blocks * (STRIPE * nb) == STRIPE * (blocks * nb)
  {
  }

  lemma StripesOf(m: nat, r: nat)
    ensures STRIPE * m % STRIPE == 0
    ensures (STRIPE * m + r) / STRIPE == m + r / STRIPE
  {
  }
}
