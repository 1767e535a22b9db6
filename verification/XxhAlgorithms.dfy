/** XXH32 and XXH64 with the constants and mixing steps of dse/clib/data/xxhash.h. */
module XxhAlgorithms {
  import opened Widths
  import opened Words
  import opened XxhPrimes
  import opened XxhClassic

  // ---- XXH32 ----

  type u32 = x: int | 0 <= x < 0x1_0000_0000

  /** The low 32 bits, as an assignment to xxh_u32 keeps them. */
  function Cut(x: nat): u32 {
    x % TWO_32
  }

  function Rotl32(x: u32, r: nat): u32
    requires r <= 32
  {
    Cut(Up(x, r) + Down(x, 32 - r))
  }

  /** x ^ (x >> k). */
  function XorShift32(x: u32, k: nat): u32 {
    Pow2Of32();
    XorBits(x, Down(x, k), 32)
  }

  function Round32(acc: u32, input: u32): u32 {
    Cut(Rotl32(Cut(acc + input * PRIME32_2), 13) * PRIME32_1)
  }

  function Avalanche32(hash: u32): u32 {
    var a := Cut(XorShift32(hash, 15) * PRIME32_2);
    var b := Cut(XorShift32(a, 13) * PRIME32_3);
    XorShift32(b, 16)
  }

  function InitAccs32(seed: u32): Lanes {
    [Cut(seed + PRIME32_1 + PRIME32_2), Cut(seed + PRIME32_2), seed, Cut(seed + TWO_32 - PRIME32_1)]
  }

  function MergeAccs32(acc: Lanes): u32 {
    Sum32(Rotl32(Cut(acc[0]), 1), Rotl32(Cut(acc[1]), 7), Rotl32(Cut(acc[2]), 12), Rotl32(Cut(acc[3]), 18))
  }

  function Sum32(a: u32, b: u32, c: u32, d: u32): u32 {
    Cut(a + b + c + d)
  }

  /** The bytes left over, unit by unit: how long the first unit of a tail is, what it does to the hash, and what
      is done at the end. */
  datatype Tail = Tail(unit: nat -> nat, mix: (u64, Bytes) -> u64, last: u64 -> u64)

  function UnitOf(t: Tail, len: nat): (n: nat)
    ensures len > 0 ==> 0 < n <= len
  {
    if 0 < t.unit(len) <= len then t.unit(len) else len
  }

  function Finalized(t: Tail, hash: u64, tail: Bytes): u64
    decreases |tail|
  {
    if tail == [] then t.last(hash)
    else var n := UnitOf(t, |tail|); Finalized(t, t.mix(hash, tail[..n]), tail[n..])
  }

  /** XXH32_finalize: four bytes at a time, then single ones. */
  function Tail32(): Tail {
    Tail((len: nat) => if len >= 4 then 4 else 1, Mix32Unit, Last32)
  }

  function Mix32Unit(h: u64, b: Bytes): u64 {
    if |b| == 4 then MixWord32(Cut(h), Cut(LittleEndian(b))) else MixByte32(Cut(h), Cut(LittleEndian(b)))
  }

  function Last32(h: u64): u64 {
    Avalanche32(Cut(h))
  }

  function MixWord32(hash: u32, word: u32): u32 {
    Cut(Rotl32(Cut(hash + word * PRIME32_3), 17) * PRIME32_4)
  }

  function MixByte32(hash: u32, byte: u32): u32 {
    Cut(Rotl32(Cut(hash + byte * PRIME32_5), 11) * PRIME32_1)
  }

  // The same over the words that both algorithms share.

  function Init32(seed: u64): Lanes {
    InitAccs32(Cut(seed))
  }

  function Read32(b: Bytes): u64 {
    Cut(LittleEndian(b))
  }

  function Mix32(acc: u64, input: u64): u64 {
    Round32(Cut(acc), Cut(input))
  }

  function Merge32(acc: Lanes): u64 {
    MergeAccs32(acc)
  }

  function Short32(seed: u64): u64 {
    Cut(seed + PRIME32_5)
  }

  function AddLength32(h: u64, len: nat): u64 {
    Cut(h + len)
  }

  function Finish32(h: u64, tail: Bytes): u64 {
    Finalized(Tail32(), h, tail)
  }

  function Xxh32(): Algo {
    Algo(4, Init32, Read32, Mix32, Merge32, Short32, AddLength32, Finish32)
  }

  // ---- XXH64 ----

  function Rotl64(x: u64, r: nat): u64
    requires r <= 64
  {
    Wrap(Up(x, r) + Down(x, 64 - r))
  }

  function XorShift64(x: u64, k: nat): u64 {
    Pow2Of64();
    XorBits(x, Down(x, k), 64)
  }

  function Round64(acc: u64, input: u64): u64 {
    Mul(Rotl64(Add(acc, Mul(input, PRIME64_2)), 31), PRIME64_1)
  }

  function MergeRound64(acc: u64, val: u64): u64 {
    Add(Mul(Xor(acc, Round64(0, val)), PRIME64_1), PRIME64_4)
  }

  function Avalanche64(hash: u64): u64 {
    var a := Mul(XorShift64(hash, 33), PRIME64_2);
    var b := Mul(XorShift64(a, 29), PRIME64_3);
    XorShift64(b, 32)
  }

  function InitAccs64(seed: u64): Lanes {
    [Add(Add(seed, PRIME64_1), PRIME64_2), Add(seed, PRIME64_2), seed, Sub(seed, PRIME64_1)]
  }

  function MergeAccs64(acc: Lanes): u64 {
    var h := Add(Add(Rotl64(acc[0], 1), Rotl64(acc[1], 7)), Add(Rotl64(acc[2], 12), Rotl64(acc[3], 18)));
    MergeRound64(MergeRound64(MergeRound64(MergeRound64(h, acc[0]), acc[1]), acc[2]), acc[3])
  }

  /** XXH64_finalize: eight bytes at a time, then four, then single ones. */
  function Tail64(): Tail {
    Tail((len: nat) => if len >= 8 then 8 else if len >= 4 then 4 else 1, Mix64Unit, Avalanche64)
  }

  function Mix64Unit(h: u64, b: Bytes): u64 {
    var w := Wrap(LittleEndian(b));
    if |b| == 8 then MixWord64(h, w) else if |b| == 4 then MixHalf64(h, w) else MixByte64(h, w)
  }

  function Finish64(h: u64, tail: Bytes): u64 {
    Finalized(Tail64(), h, tail)
  }

  function MixWord64(hash: u64, word: u64): u64 {
    Add(Mul(Rotl64(Xor(hash, Round64(0, word)), 27), PRIME64_1), PRIME64_4)
  }

  function MixHalf64(hash: u64, half: u64): u64 {
    Add(Mul(Rotl64(Xor(hash, Mul(half, PRIME64_1)), 23), PRIME64_2), PRIME64_3)
  }

  function MixByte64(hash: u64, byte: u64): u64 {
    Mul(Rotl64(Xor(hash, Mul(byte, PRIME64_5)), 11), PRIME64_1)
  }

  function Word64(b: Bytes): u64 {
    Wrap(LittleEndian(b))
  }

  function Short64(seed: u64): u64 {
    Add(seed, PRIME64_5)
  }

  function AddLength64(h: u64, len: nat): u64 {
    Wrap(h + len)
  }

  function Xxh64(): Algo {
    Algo(8, InitAccs64, Word64, Round64, MergeAccs64, Short64, AddLength64, Finish64)
  }

  // ---- the hypotheses of the streaming theorems hold ----

  lemma Xxh32Fits()
    ensures Xxh32().width == 4 && KeepsSeed(Xxh32()) && WrapsLength(Xxh32())
  {
    forall h: u64, n: nat ensures AddLength32(h, n % TWO_32) == AddLength32(h, n) {
      CutTwice(h, n);
    }
  }

  lemma CutTwice(h: nat, n: nat)
    ensures (h + n % TWO_32) % TWO_32 == (h + n) % TWO_32
  {
  }

  lemma Xxh64Fits()
    ensures Xxh64().width == 8 && KeepsSeed(Xxh64())
  {
  }

  /** XXH32 itself, over any chunks. */
  method StreamXxh32(seed: u32, chunks: seq<Bytes>) returns (h: u64)
    ensures h == HashOf(Xxh32(), seed, Joined(chunks))
  {
    Xxh32Fits();
    h := StreamChunks32(Xxh32(), seed, chunks);
  }

  /** XXH64 itself, over any chunks. */
  method StreamXxh64(seed: u64, chunks: seq<Bytes>) returns (h: u64)
    requires |Joined(chunks)| < TWO_64
    ensures h == HashOf(Xxh64(), seed, Joined(chunks))
  {
    Xxh64Fits();
    h := StreamChunks64(Xxh64(), seed, chunks);
  }
}
