/** XXH32 and XXH64 of dse/clib/data/xxhash.h: one-shot and streaming.  The two share their text up to the
    lane width (4 or 8 bytes, four lanes a stripe) and the way the total length is kept. */
module XxhClassic {
  import opened Widths
  import opened Words

  type Lanes = a: seq<u64> | |a| == 4 witness [0, 0, 0, 0]

  /** The lane width and the mixing steps of one of the two: initAccs, the little-endian read of a lane,
      round, mergeAccs, the start value of a short input, the addition of the length, and finalize over
      the bytes left over. */
  datatype Algo = Algo(
    width: nat,
    initAccs: u64 -> Lanes,
    read: Bytes -> u64,
    round: (u64, u64) -> u64,
    merge: Lanes -> u64,
    short: u64 -> u64,
    addLength: (u64, nat) -> u64,
    finish: (u64, Bytes) -> u64)

  predicate Legal(a: Algo) {
    a.width == 4 || a.width == 8
  }

  function StripeOf(a: Algo): (s: nat)
    ensures Legal(a) ==> s == 4 * a.width
  {
    if a.width == 4 then 16 else 32
  }

  /** len modulo the stripe size, by its mask. */
  function Left(a: Algo, len: nat): (r: nat)
    ensures r < StripeOf(a)
  {
    if a.width == 4 then len % 16 else len % 32
  }

  /** The seed of XXH32 is an xxh_u32. */
  predicate SeedFits(a: Algo, seed: u64) {
    a.width == 4 ==> seed < TWO_32
  }

  /** The source's remark on the accumulators: lane 2 starts as the seed. */
  ghost predicate KeepsSeed(a: Algo) {
    forall seed: u64 :: SeedFits(a, seed) ==> a.initAccs(seed)[2] == seed
  }

  /** XXH32 adds the length as an xxh_u32. */
  ghost predicate WrapsLength(a: Algo) {
    forall h: u64, n: nat :: a.addLength(h, n % TWO_32) == a.addLength(h, n)
  }

  /** XXH_get32bits / XXH_get64bits of a lane. */
  function ReadLane(a: Algo, b: Bytes, i: nat): u64
    requires Legal(a) && i < 4 && |b| == StripeOf(a)
  {
    a.read(b[a.width * i..a.width * i + a.width])
  }

  /** One turn of consumeLong: each lane takes its part of the stripe. */
  function Round(a: Algo, acc: Lanes, stripe: Bytes): Lanes
    requires Legal(a) && |stripe| == StripeOf(a)
  {
    [a.round(acc[0], ReadLane(a, stripe, 0)), a.round(acc[1], ReadLane(a, stripe, 1)),
     a.round(acc[2], ReadLane(a, stripe, 2)), a.round(acc[3], ReadLane(a, stripe, 3))]
  }

  /** The whole stripes of the data, one at a time. */
  function Rounds(a: Algo, acc: Lanes, data: Bytes): Lanes
    requires Legal(a)
    decreases |data|
  {
    var s := StripeOf(a);
    if |data| < s then acc else Rounds(a, Round(a, acc, data[..s]), data[s..])
  }

  /** What is left after the whole stripes. */
  function Rest(a: Algo, data: Bytes): (r: Bytes)
    requires Legal(a)
    ensures |r| < StripeOf(a) && |r| <= |data|
    decreases |data|
  {
    if |data| < StripeOf(a) then data else Rest(a, data[StripeOf(a)..])
  }

  lemma {:induction false} RoundsConcat(a: Algo, acc: Lanes, x: Bytes, y: Bytes)
    requires Legal(a)
    ensures Rounds(a, acc, x + y) == Rounds(a, Rounds(a, acc, x), Rest(a, x) + y)
    ensures Rest(a, x + y) == Rest(a, Rest(a, x) + y)
    decreases |x|
  {
    var s := StripeOf(a);
    if |x| >= s {
      assert (x + y)[..s] == x[..s] && (x + y)[s..] == x[s..] + y;
      RoundsConcat(a, Round(a, acc, x[..s]), x[s..], y);
    }
  }

  /** The length that is left is the one the mask gives. */
  lemma {:induction false} RestLength(a: Algo, data: Bytes)
    requires Legal(a)
    ensures |Rest(a, data)| == Left(a, |data|)
    ensures Rest(a, data) == data[|data| - Left(a, |data|)..]
    decreases |data|
  {
    var s := StripeOf(a);
    if |data| >= s {
      RestLength(a, data[s..]);
      LeftStep(a, |data|);
      var k := |data| - s - Left(a, |data|);
      assert data[s..][k..] == data[s + k..];
    } else {
      LeftStep(a, |data|);
    }
  }

  lemma LeftStep(a: Algo, len: nat)
    requires Legal(a)
    ensures Left(a, len) == if len < StripeOf(a) then len else Left(a, len - StripeOf(a))
    ensures Left(a, len) <= len
  {
    if a.width == 4 {
      ModStep16(len);
    } else {
      ModStep32(len);
    }
  }

  lemma ModStep16(n: nat)
    ensures n % 16 == if n < 16 then n else (n - 16) % 16
  {
  }

  lemma ModStep32(n: nat)
    ensures n % 32 == if n < 32 then n else (n - 32) % 32
  {
  }

  /** XXH32_endian_align / XXH64_endian_align. */
  function HashOf(a: Algo, seed: u64, data: Bytes): u64
    requires Legal(a)
  {
    var h := if |data| >= StripeOf(a) then a.merge(Rounds(a, a.initAccs(seed), data)) else a.short(seed);
    a.finish(a.addLength(h, |data|), Rest(a, data))
  }

  // ---- in place ----

  method StoreLanes(acc: array<u64>, v: Lanes)
    requires acc.Length == 4
    modifies acc
    ensures acc[..] == v
  {
    acc[0], acc[1], acc[2], acc[3] := v[0], v[1], v[2], v[3];
  }

  /** XXH32_consumeLong / XXH64_consumeLong: a do-while loop over the whole stripes; what remains is returned. */
  method ConsumeLong(a: Algo, acc: array<u64>, input: Bytes) returns (rest: Bytes)
    requires Legal(a) && acc.Length == 4 && |input| >= StripeOf(a)
    modifies acc
    ensures acc[..] == Rounds(a, old(acc[..]), input)
    ensures rest == Rest(a, input)
  {
    var s := StripeOf(a);
    rest := input;
    var again := true;
    while again
      invariant again <==> |rest| >= s
      invariant Rounds(a, acc[..], rest) == Rounds(a, old(acc[..]), input)
      invariant Rest(a, rest) == Rest(a, input)
      decreases |rest|
    {
      ghost var before := acc[..];
      acc[0] := a.round(acc[0], ReadLane(a, rest[..s], 0));
      acc[1] := a.round(acc[1], ReadLane(a, rest[..s], 1));
      acc[2] := a.round(acc[2], ReadLane(a, rest[..s], 2));
      acc[3] := a.round(acc[3], ReadLane(a, rest[..s], 3));
      assert acc[..] == Round(a, before, rest[..s]);
      rest := rest[s..];
      again := |rest| >= s;
    }
  }

  /** The one-shot functions; finalize masks the length it is given. */
  method OneShot(a: Algo, seed: u64, input: Bytes) returns (h: u64)
    requires Legal(a)
    ensures h == HashOf(a, seed, input)
  {
    var rest := input;
    if |input| >= StripeOf(a) {
      var acc := new u64[4](i => 0);
      StoreLanes(acc, a.initAccs(seed));
      rest := ConsumeLong(a, acc, input);
      h := a.merge(acc[..]);
    } else {
      h := a.short(seed);
    }
    RestLength(a, input);
    h := a.addLength(h, |input|);
    assert rest[..Left(a, |input|)] == rest;
    h := a.finish(h, rest[..Left(a, |input|)]);
  }

  /** What the two streaming states have in common: accumulators and a buffer of less than one stripe. */
  class Buffered {
    const algo: Algo
    const acc: array<u64>
    const buffer: array<u8>
    var bufferedSize: nat
    ghost var seed: u64
    ghost var fed: Bytes

    ghost predicate Valid()
      reads this, acc, buffer
    {
      && Legal(algo) && acc.Length == 4 && buffer.Length == StripeOf(algo)
      && bufferedSize < buffer.Length
      && acc[..] == Rounds(algo, algo.initAccs(seed), fed)
      && buffer[..bufferedSize] == Rest(algo, fed)
    }

    /** The accumulators and buffer after XXH32_reset / XXH64_reset. */
    constructor (algo: Algo, seed: u64)
      requires Legal(algo)
      ensures Valid() && this.algo == algo && this.seed == seed && fed == []
      ensures fresh(acc) && fresh(buffer)
    {
      this.algo := algo;
      this.seed := seed;
      acc := new u64[4](i => 0);
      buffer := new u8[StripeOf(algo)](i => 0);
      bufferedSize := 0;
      fed := [];
      new;
      StoreLanes(acc, algo.initAccs(seed));
    }

    /** XXH32_update / XXH64_update, without the total length: complete the buffer, take whole stripes
        straight from the input, keep the rest. */
    method Feed(input: Bytes)
      requires Valid()
      modifies this, acc, buffer
      ensures Valid() && seed == old(seed) && fed == old(fed) + input
    {
      RoundsConcat(algo, algo.initAccs(seed), fed, input);
      fed := fed + input;
      if |input| < buffer.Length - bufferedSize {
        ghost var held := buffer[..bufferedSize];
        CopyTo(buffer, bufferedSize, input);
        bufferedSize := bufferedSize + |input|;
        assert buffer[..bufferedSize] == held + input;
      } else {
        var rest := CompleteBuffer(input);
        if |rest| >= buffer.Length {
          rest := ConsumeLong(algo, acc, rest);
        }
        if rest != [] {
          CopyTo(buffer, 0, rest);
          bufferedSize := |rest|;
        }
      }
    }

    /** A buffer that is not empty is filled from the input and taken in. */
    method CompleteBuffer(input: Bytes) returns (rest: Bytes)
      requires Legal(algo) && acc.Length == 4 && buffer.Length == StripeOf(algo)
      requires bufferedSize < buffer.Length && |input| >= buffer.Length - bufferedSize
      modifies acc, buffer, `bufferedSize
      ensures bufferedSize == 0
      ensures Rounds(algo, acc[..], rest) == Rounds(algo, old(acc[..]), old(buffer[..bufferedSize]) + input)
      ensures Rest(algo, rest) == Rest(algo, old(buffer[..bufferedSize]) + input)
    {
      rest := input;
      if bufferedSize != 0 {
        ghost var held := buffer[..bufferedSize];
        ghost var all := held + input;
        var load := buffer.Length - bufferedSize;
        CopyTo(buffer, bufferedSize, input[..load]);
        rest := input[load..];
        assert buffer[..] == buffer[..bufferedSize] + buffer[bufferedSize..bufferedSize + load];
        CutAt(held, input, load);
        var none := ConsumeLong(algo, acc, buffer[..]);
        assert buffer[..][..buffer.Length] == buffer[..] && buffer[..][buffer.Length..] == [];
        bufferedSize := 0;
      } else {
        assert buffer[..0] + input == input;
      }
    }
  }

  lemma CutAt(x: Bytes, y: Bytes, k: nat)
    requires k <= |y|
    ensures (x + y)[..|x| + k] == x + y[..k] && (x + y)[|x| + k..] == y[k..]
  {
  }

  /** XXH32_state_t: the length modulo 2^32, and a flag for "at least 16 bytes so far". */
  class State32 {
    const core: Buffered
    var totalLen32: nat
    var largeLen: bool

    ghost predicate Valid()
      reads this, core, core.acc, core.buffer
    {
      && core.Valid() && core.algo.width == 4 && KeepsSeed(core.algo) && WrapsLength(core.algo) && core.seed < TWO_32
      && totalLen32 == |core.fed| % TWO_32
      && (largeLen <==> |core.fed| >= 16)
    }

    constructor (algo: Algo, seed: u64)
      requires algo.width == 4 && KeepsSeed(algo) && WrapsLength(algo) && seed < TWO_32
      ensures Valid() && core.algo == algo && core.seed == seed && core.fed == []
      ensures fresh(core) && fresh(core.acc) && fresh(core.buffer)
    {
      core := new Buffered(algo, seed);
      totalLen32, largeLen := 0, false;
    }

    /** XXH32_update: both fields stay right although the length wraps. */
    method Update(input: Bytes)
      requires Valid()
      modifies this, core, core.acc, core.buffer
      ensures Valid() && core.seed == old(core.seed) && core.fed == old(core.fed) + input
    {
      LengthWraps(|core.fed|, |input|);
      totalLen32 := (totalLen32 + |input|) % TWO_32;
      largeLen := largeLen || |input| >= 16 || totalLen32 >= 16;
      ghost var total := |core.fed| + |input|;
      assert totalLen32 == total % TWO_32 && (largeLen <==> total >= 16);
      core.Feed(input);
      assert |core.fed| == total;
    }

    /** XXH32_digest. */
    method Digest() returns (h: u64)
      requires Valid()
      ensures h == HashOf(core.algo, core.seed, core.fed)
    {
      if largeLen {
        h := core.algo.merge(core.acc[..]);
      } else {
        h := core.algo.short(core.acc[2]);
      }
      h := core.algo.addLength(h, totalLen32);
      h := core.algo.finish(h, core.buffer[..core.bufferedSize]);
    }
  }

  /** The wrapped sum of lengths is the wrapped length, and it is below 16 for a short total only if an
      earlier length or the piece was not. */
  lemma LengthWraps(total: nat, len: nat)
    ensures (total % TWO_32 + len) % TWO_32 == (total + len) % TWO_32
    ensures total < 16 && len < 16 ==> (total + len) % TWO_32 == total + len
    ensures (total + len) % TWO_32 <= total + len
  {
  }

  /** XXH64_state_t: the length as a 64-bit number. */
  class State64 {
    const core: Buffered
    var totalLen: nat

    ghost predicate Valid()
      reads this, core, core.acc, core.buffer
    {
      && core.Valid() && core.algo.width == 8 && KeepsSeed(core.algo)
      && totalLen == |core.fed| < TWO_64
    }

    constructor (algo: Algo, seed: u64)
      requires algo.width == 8 && KeepsSeed(algo)
      ensures Valid() && core.algo == algo && core.seed == seed && core.fed == []
      ensures fresh(core) && fresh(core.acc) && fresh(core.buffer)
    {
      core := new Buffered(algo, seed);
      totalLen := 0;
    }

    /** XXH64_update. */
    method Update(input: Bytes)
      requires Valid() && |core.fed| + |input| < TWO_64
      modifies this, core, core.acc, core.buffer
      ensures Valid() && core.seed == old(core.seed) && core.fed == old(core.fed) + input
    {
      totalLen := totalLen + |input|;
      core.Feed(input);
    }

    /** XXH64_digest: finalize is told the whole length and masks it. */
    method Digest() returns (h: u64)
      requires Valid()
      ensures h == HashOf(core.algo, core.seed, core.fed)
    {
      if totalLen >= 32 {
        h := core.algo.merge(core.acc[..]);
      } else {
        h := core.algo.short(core.acc[2]);
      }
      RestLength(core.algo, core.fed);
      h := core.algo.addLength(h, totalLen);
      h := core.algo.finish(h, core.buffer[..totalLen % 32]);
    }
  }

  /** A whole XXH32 run, for any chunking and any total length. */
  method StreamChunks32(a: Algo, seed: u64, chunks: seq<Bytes>) returns (h: u64)
    requires a.width == 4 && KeepsSeed(a) && WrapsLength(a) && seed < TWO_32
    ensures h == HashOf(a, seed, Joined(chunks))
  {
    var s := new State32(a, seed);
    var i := 0;
    while i < |chunks|
      invariant 0 <= i <= |chunks| && fresh(s) && fresh(s.core) && fresh(s.core.acc) && fresh(s.core.buffer)
      invariant s.Valid() && s.core.algo == a && s.core.seed == seed && s.core.fed == Joined(chunks[..i])
    {
      assert chunks[..i + 1][..i] == chunks[..i];
      s.Update(chunks[i]);
      i := i + 1;
    }
    assert chunks[..i] == chunks;
    h := s.Digest();
  }

  /** A whole XXH64 run, for any chunking. */
  method StreamChunks64(a: Algo, seed: u64, chunks: seq<Bytes>) returns (h: u64)
    requires a.width == 8 && KeepsSeed(a) && |Joined(chunks)| < TWO_64
    ensures h == HashOf(a, seed, Joined(chunks))
  {
    var s := new State64(a, seed);
    var i := 0;
    while i < |chunks|
      invariant 0 <= i <= |chunks| && fresh(s) && fresh(s.core) && fresh(s.core.acc) && fresh(s.core.buffer)
      invariant s.Valid() && s.core.algo == a && s.core.seed == seed && s.core.fed == Joined(chunks[..i])
    {
      JoinedLength(chunks, i + 1);
      assert chunks[..i + 1][..i] == chunks[..i];
      s.Update(chunks[i]);
      i := i + 1;
    }
    assert chunks[..i] == chunks;
    h := s.Digest();
  }
}
