/** The same for XXH64: the shortest input of each path, for every seed and all bytes, constants and rotations
    written out.  Xor is exclusive or by bits. */
module Xxh64Paths {
  import opened Widths
  import opened Words
  import opened Bits
  import opened XxhClassic
  import opened XxhAlgorithms
  import opened XxhInjective
  import opened Xxh64Injective
  import opened XxhPaths

  /** A rotation of 64 bits by r. */
  lemma Turn64(x: u64, r: nat, s: nat, low: nat, up: nat)
    requires r + s == 64 && Pow2(s) == low && Pow2(r) == up
    ensures Rotl64(x, r) == Turn(x, low, up)
  {
    Pow2Of64();
    TurnWithin(x, r, s, low, up, TWO_64);
  }

  /** Powers with 32 < s. */
  lemma HighPower(s: nat, low: nat)
    requires Pow2(s) * 0x1_0000_0000 == low
    ensures Pow2(s + 32) == low
  {
    Pow2Of32();
    Pow2Sum(s, 32);
  }

  /** Xor differs in a bit exactly where the bits differ. */
  lemma BitOfXor64(x: u64, y: u64, i: nat)
    requires i < 64
    ensures Bit(Xor(x, y), i) == 1 <==> Bit(x, i) != Bit(y, i)
  {
    BitOfXor(x, y, 64, i);
  }

  lemma AddWraps(x: u64, y: u64)
    ensures Add(x, y) == (x + y) % 0x1_0000_0000_0000_0000
  {
  }

  /** How XXH64 ends. */
  lemma Avalanche64Folds(h: u64) returns (u: u64, v: u64)
    ensures FoldsTo(h, 33, u, 64)
    ensures FoldsTo(u * 0xC2B2AE3D27D4EB4F % 0x1_0000_0000_0000_0000, 29, v, 64)
    ensures FoldsTo(v * 0x165667B19E3779F9 % 0x1_0000_0000_0000_0000, 32, Avalanche64(h), 64)
  {
    u := XorShift64(h, 33);
    var a := Wrap(u * 0xC2B2AE3D27D4EB4F);
    v := XorShift64(a, 29);
    XorFolds(h, 33, 64);
    XorFolds(a, 29, 64);
    XorFolds(Wrap(v * 0x165667B19E3779F9), 32, 64);
  }

  // ---- steps ----

  lemma MixByte64Turns(h: u64, b: u64)
    ensures MixByte64(h, b)
         == Turn(Xor(h, b * 0x27D4EB2F165667C5 % 0x1_0000_0000_0000_0000), 0x20_0000_0000_0000, 0x800)
            * 0x9E3779B185EBCA87 % 0x1_0000_0000_0000_0000
  {
    assert Pow2(11) == 0x800 && Pow2(21) == 0x20_0000;
    HighPower(21, 0x20_0000_0000_0000);
    Turn64(Xor(h, Mul(b, 0x27D4EB2F165667C5)), 11, 53, 0x20_0000_0000_0000, 0x800);
  }

  lemma MixHalf64Turns(h: u64, w: u64)
    ensures MixHalf64(h, w)
         == (Turn(Xor(h, w * 0x9E3779B185EBCA87 % 0x1_0000_0000_0000_0000), 0x200_0000_0000, 0x80_0000)
             * 0xC2B2AE3D27D4EB4F % 0x1_0000_0000_0000_0000 + 0x165667B19E3779F9) % 0x1_0000_0000_0000_0000
  {
    assert Pow2(9) == 0x200 && Pow2(23) == 0x80_0000;
    HighPower(9, 0x200_0000_0000);
    Turn64(Xor(h, Mul(w, 0x9E3779B185EBCA87)), 23, 41, 0x200_0000_0000, 0x80_0000);
    AddWraps(Mul(Rotl64(Xor(h, Mul(w, 0x9E3779B185EBCA87)), 23), 0xC2B2AE3D27D4EB4F), 0x165667B19E3779F9);
  }

  lemma Round64Turns(acc: u64, w: u64)
    ensures Round64(acc, w)
         == Turn((acc + w * 0xC2B2AE3D27D4EB4F % 0x1_0000_0000_0000_0000) % 0x1_0000_0000_0000_0000,
                 0x2_0000_0000, 0x8000_0000) * 0x9E3779B185EBCA87 % 0x1_0000_0000_0000_0000
  {
    Pow2Sum(16, 15);
    assert Pow2(1) == 2 && Pow2(16) == 0x1_0000 && Pow2(15) == 0x8000;
    HighPower(1, 0x2_0000_0000);
    AddWraps(acc, Mul(w, 0xC2B2AE3D27D4EB4F));
    Turn64(Add(acc, Mul(w, 0xC2B2AE3D27D4EB4F)), 31, 33, 0x2_0000_0000, 0x8000_0000);
  }

  lemma MixWord64Turns(h: u64, w: u64)
    ensures MixWord64(h, w)
         == (Turn(Xor(h, Round64(0, w)), 0x20_0000_0000, 0x800_0000)
             * 0x9E3779B185EBCA87 % 0x1_0000_0000_0000_0000 + 0x85EBCA77C2B2AE63) % 0x1_0000_0000_0000_0000
  {
    Pow2Sum(16, 11);
    assert Pow2(5) == 0x20 && Pow2(16) == 0x1_0000 && Pow2(11) == 0x800;
    HighPower(5, 0x20_0000_0000);
    Turn64(Xor(h, Round64(0, w)), 27, 37, 0x20_0000_0000, 0x800_0000);
    AddWraps(Mul(Rotl64(Xor(h, Round64(0, w)), 27), 0x9E3779B185EBCA87), 0x85EBCA77C2B2AE63);
  }

  // ---- words ----

  /** Eight bytes as a little-endian number. */
  function Word8(b: Bytes): (w: u64)
    requires |b| == 8
  {
    Word(b[..4]) + 0x1_0000_0000 * Word(b[4..])
  }

  lemma FirstFour(b: Bytes)
    requires |b| >= 4
    ensures LittleEndian(b) == Word(b[..4]) + 0x1_0000_0000 * LittleEndian(b[4..])
  {
    assert LittleEndian(b[1..]) == b[1] + 0x100 * LittleEndian(b[1..][1..]) && b[1..][1..] == b[2..];
    assert LittleEndian(b[2..]) == b[2] + 0x100 * LittleEndian(b[2..][1..]) && b[2..][1..] == b[3..];
    assert LittleEndian(b[3..]) == b[3] + 0x100 * LittleEndian(b[3..][1..]) && b[3..][1..] == b[4..];
  }

  lemma ReadsWord8(b: Bytes)
    requires |b| == 8
    ensures Wrap(LittleEndian(b)) == Word8(b)
  {
    FirstFour(b);
    WordOf(b[4..]);
    WrapFits(Word8(b));
  }

  lemma WrapFits(x: nat)
    requires x < TWO_64
    ensures Wrap(x) == x
  {
  }

  /** What a lane of XXH64 makes of a word. */
  function Lane64(acc: u64, w: u64): u64 {
    Turn((acc + w * 0xC2B2AE3D27D4EB4F % 0x1_0000_0000_0000_0000) % 0x1_0000_0000_0000_0000,
         0x2_0000_0000, 0x8000_0000) * 0x9E3779B185EBCA87 % 0x1_0000_0000_0000_0000
  }

  /** What a unit of the tail does to the hash. */
  function TakeWord64(h: u64, w: u64): u64 {
    (Turn(Xor(h, Lane64(0, w)), 0x20_0000_0000, 0x800_0000)
     * 0x9E3779B185EBCA87 % 0x1_0000_0000_0000_0000 + 0x85EBCA77C2B2AE63) % 0x1_0000_0000_0000_0000
  }

  function TakeHalf64(h: u64, w: u64): u64 {
    (Turn(Xor(h, w * 0x9E3779B185EBCA87 % 0x1_0000_0000_0000_0000), 0x200_0000_0000, 0x80_0000)
     * 0xC2B2AE3D27D4EB4F % 0x1_0000_0000_0000_0000 + 0x165667B19E3779F9) % 0x1_0000_0000_0000_0000
  }

  function TakeByte64(h: u64, b: u64): u64 {
    Turn(Xor(h, b * 0x27D4EB2F165667C5 % 0x1_0000_0000_0000_0000), 0x20_0000_0000_0000, 0x800)
    * 0x9E3779B185EBCA87 % 0x1_0000_0000_0000_0000
  }

  // ---- the paths of XXH64 ----

  lemma ShortOf64(seed: u64, d: Bytes, h: u64)
    requires |d| < 32 && h == (seed + 0x27D4EB2F165667C5 + |d|) % 0x1_0000_0000_0000_0000
    ensures HashOf(Xxh64(), seed, d) == Finish64(h, d)
  {
    ShortPath(Xxh64(), seed, d);
    AddWraps(seed, 0x27D4EB2F165667C5);
    WrapTwice(|d|, seed + 0x27D4EB2F165667C5);
  }

  lemma WrapTwice(h: nat, n: nat)
    ensures (h + n % TWO_64) % TWO_64 == (h + n) % TWO_64
  {
  }

  /** No input. */
  lemma Xxh64OfNone(seed: u64, d: Bytes, h: u64)
    requires d == [] && h == (seed + 0x27D4EB2F165667C5) % 0x1_0000_0000_0000_0000
    ensures HashOf(Xxh64(), seed, d) == Avalanche64(h)
  {
    ShortOf64(seed, d, h);
  }

  /** One byte. */
  lemma Xxh64OfByte(seed: u64, d: Bytes, h: u64)
    requires |d| == 1 && h == (seed + 0x27D4EB2F165667C5 + 1) % 0x1_0000_0000_0000_0000
    ensures HashOf(Xxh64(), seed, d) == Avalanche64(TakeByte64(h, d[0]))
  {
    ShortOf64(seed, d, h);
    NextUnit64(h, d);
    assert d[1..] == [];
  }

  /** One half word of four bytes. */
  lemma Xxh64OfHalf(seed: u64, d: Bytes, h: u64)
    requires |d| == 4 && h == (seed + 0x27D4EB2F165667C5 + 4) % 0x1_0000_0000_0000_0000
    ensures HashOf(Xxh64(), seed, d) == Avalanche64(TakeHalf64(h, Word(d)))
  {
    ShortOf64(seed, d, h);
    NextUnit64(h, d);
    assert d[..4] == d && d[4..] == [];
  }

  /** One word of eight bytes. */
  lemma Xxh64OfWord(seed: u64, d: Bytes, h: u64)
    requires |d| == 8 && h == (seed + 0x27D4EB2F165667C5 + 8) % 0x1_0000_0000_0000_0000
    ensures HashOf(Xxh64(), seed, d) == Avalanche64(TakeWord64(h, Word8(d)))
  {
    ShortOf64(seed, d, h);
    NextUnit64(h, d);
    assert d[..8] == d && d[8..] == [];
  }

  /** The start values of the lanes, what a stripe makes of them, and what is made of them at the end: they are turned
      by 1, 7, 12 and 18 bits, added, and merged in one by one. */
  function First64(seed: u64): Lanes {
    [(seed + 0x60EA27EEADC0B5D6) % 0x1_0000_0000_0000_0000, (seed + 0xC2B2AE3D27D4EB4F) % 0x1_0000_0000_0000_0000, seed,
     (seed + 0x61C8864E7A143579) % 0x1_0000_0000_0000_0000]
  }

  function Taken64(acc: Lanes, d: Bytes): Lanes
    requires |d| >= 32
  {
    [Lane64(acc[0], Word8(d[0..8])), Lane64(acc[1], Word8(d[8..16])), Lane64(acc[2], Word8(d[16..24])),
     Lane64(acc[3], Word8(d[24..32]))]
  }

  function Turned64(acc: Lanes): u64 {
    Total64(Turn(acc[0], 0x8000_0000_0000_0000, 2), Turn(acc[1], 0x200_0000_0000_0000, 0x80),
            Turn(acc[2], 0x10_0000_0000_0000, 0x1000), Turn(acc[3], 0x4000_0000_0000, 0x4_0000))
  }

  function Total64(w: nat, x: nat, y: nat, z: nat): u64 {
    (w + x + y + z) % 0x1_0000_0000_0000_0000
  }

  function Merged64(acc: Lanes): u64 {
    Joined64(Joined64(Joined64(Joined64(Turned64(acc), acc[0]), acc[1]), acc[2]), acc[3])
  }

  lemma FirstOf64(seed: u64)
    ensures InitAccs64(seed) == First64(seed)
  {
  }

  lemma RoundIsLane64(acc: u64, b: Bytes)
    requires |b| == 8
    ensures Round64(acc, Word64(b)) == Lane64(acc, Word8(b))
  {
    ReadsWord8(b);
    Round64Turns(acc, Word8(b));
  }

  lemma By1(x: u64)
    ensures Rotl64(x, 1) == Turn(x, 0x8000_0000_0000_0000, 2)
  {
    Pow2Sum(16, 15);
    assert Pow2(1) == 2 && Pow2(16) == 0x1_0000 && Pow2(15) == 0x8000;
    HighPower(31, 0x8000_0000_0000_0000);
    Turn64(x, 1, 63, 0x8000_0000_0000_0000, 2);
  }

  lemma By7(x: u64)
    ensures Rotl64(x, 7) == Turn(x, 0x200_0000_0000_0000, 0x80)
  {
    Pow2Sum(12, 13);
    assert Pow2(7) == 0x80 && Pow2(12) == 0x1000 && Pow2(13) == 0x2000;
    HighPower(25, 0x200_0000_0000_0000);
    Turn64(x, 7, 57, 0x200_0000_0000_0000, 0x80);
  }

  lemma By12(x: u64)
    ensures Rotl64(x, 12) == Turn(x, 0x10_0000_0000_0000, 0x1000)
  {
    assert Pow2(12) == 0x1000 && Pow2(20) == 0x10_0000;
    HighPower(20, 0x10_0000_0000_0000);
    Turn64(x, 12, 52, 0x10_0000_0000_0000, 0x1000);
  }

  lemma By18(x: u64)
    ensures Rotl64(x, 18) == Turn(x, 0x4000_0000_0000, 0x4_0000)
  {
    assert Pow2(18) == 0x4_0000 && Pow2(14) == 0x4000;
    HighPower(14, 0x4000_0000_0000);
    Turn64(x, 18, 46, 0x4000_0000_0000, 0x4_0000);
  }

  lemma TurnedOf64(acc: Lanes)
    ensures Add(Add(Rotl64(acc[0], 1), Rotl64(acc[1], 7)), Add(Rotl64(acc[2], 12), Rotl64(acc[3], 18))) == Turned64(acc)
  {
    By1(acc[0]);
    By7(acc[1]);
    By12(acc[2]);
    By18(acc[3]);
    SumOfFour(Rotl64(acc[0], 1), Rotl64(acc[1], 7), Rotl64(acc[2], 12), Rotl64(acc[3], 18),
              Turn(acc[0], 0x8000_0000_0000_0000, 2), Turn(acc[1], 0x200_0000_0000_0000, 0x80),
              Turn(acc[2], 0x10_0000_0000_0000, 0x1000), Turn(acc[3], 0x4000_0000_0000, 0x4_0000));
  }

  lemma MergeOf64(acc: Lanes)
    ensures MergeAccs64(acc) == Merged64(acc)
  {
    var h := Turned64(acc);
    TurnedOf64(acc);
    MergesLane(h, acc[0]);
    MergesLane(Joined64(h, acc[0]), acc[1]);
    MergesLane(Joined64(Joined64(h, acc[0]), acc[1]), acc[2]);
    MergesLane(Joined64(Joined64(Joined64(h, acc[0]), acc[1]), acc[2]), acc[3]);
  }

  lemma SumOfFour(a: u64, b: u64, c: u64, d: u64, w: nat, x: nat, y: nat, z: nat)
    requires a == w && b == x && c == y && d == z
    ensures Add(Add(a, b), Add(c, d)) == Total64(w, x, y, z)
  {
  }

  /** How the merge takes in a lane. */
  function Joined64(h: u64, v: u64): u64 {
    (Xor(h, Lane64(0, v)) * 0x9E3779B185EBCA87 % 0x1_0000_0000_0000_0000 + 0x85EBCA77C2B2AE63) % 0x1_0000_0000_0000_0000
  }

  lemma MergesLane(h: u64, v: u64)
    ensures MergeRound64(h, v) == Joined64(h, v)
  {
    Round64Turns(0, v);
    AddWraps(Mul(Xor(h, Round64(0, v)), 0x9E3779B185EBCA87), 0x85EBCA77C2B2AE63);
  }

  lemma RoundIsTaken64(acc: Lanes, stripe: Bytes)
    requires |stripe| == 32
    ensures Round(Xxh64(), acc, stripe) == Taken64(acc, stripe)
  {
    RoundIsLane64(acc[0], stripe[0..8]);
    RoundIsLane64(acc[1], stripe[8..16]);
    RoundIsLane64(acc[2], stripe[16..24]);
    RoundIsLane64(acc[3], stripe[24..32]);
  }

  /** One whole stripe. */
  lemma Xxh64OfStripe(seed: u64, d: Bytes)
    requires |d| == 32
    ensures HashOf(Xxh64(), seed, d) == Avalanche64((Merged64(Taken64(First64(seed), d)) + 32) % 0x1_0000_0000_0000_0000)
  {
    FirstOf64(seed);
    RoundIsTaken64(First64(seed), d);
    StripeOf64(seed, d, Taken64(First64(seed), d));
    MergeOf64(Taken64(First64(seed), d));
  }

  /** Any further stripe: each lane takes its word. */
  lemma NextStripe64(acc: Lanes, d: Bytes)
    requires |d| >= 32
    ensures Rounds(Xxh64(), acc, d) == Rounds(Xxh64(), Taken64(acc, d), d[32..])
  {
    var s := d[..32];
    assert s[0..8] == d[0..8] && s[8..16] == d[8..16] && s[16..24] == d[16..24] && s[24..32] == d[24..32];
    RoundIsTaken64(acc, s);
    assert Taken64(acc, s) == Taken64(acc, d);
  }

  /** The units of a tail, one after the other from its start: eight bytes, then four, then one. */
  lemma NextUnit64(h: u64, d: Bytes)
    requires d != []
    ensures |d| >= 8 ==> Finish64(h, d) == Finish64(TakeWord64(h, Word8(d[..8])), d[8..])
    ensures 4 <= |d| < 8 ==> Finish64(h, d) == Finish64(TakeHalf64(h, Word(d[..4])), d[4..])
    ensures |d| < 4 ==> Finish64(h, d) == Finish64(TakeByte64(h, d[0]), d[1..])
  {
    if |d| >= 8 {
      NextWord64(h, d);
    } else if |d| >= 4 {
      NextHalf64(h, d);
    } else {
      NextByte64(h, d);
    }
  }

  lemma NextWord64(h: u64, d: Bytes)
    requires |d| >= 8
    ensures Finish64(h, d) == Finish64(TakeWord64(h, Word8(d[..8])), d[8..])
  {
    WordUnit64(h, d[..8], Word8(d[..8]));
    NextIs64(h, d, 8, TakeWord64(h, Word8(d[..8])));
  }

  lemma WordUnit64(h: u64, b: Bytes, w: u64)
    requires |b| == 8 && w == Word8(b)
    ensures Mix64Unit(h, b) == TakeWord64(h, w)
  {
    ReadsWord8(b);
    MixWordIsTake(h, w);
  }

  lemma MixWordIsTake(h: u64, w: u64)
    ensures MixWord64(h, w) == TakeWord64(h, w)
  {
    var zero: u64 := h - h;
    Round64Turns(zero, w);
    MixWord64Turns(h, w);
  }

  lemma NextHalf64(h: u64, d: Bytes)
    requires 4 <= |d| < 8
    ensures Finish64(h, d) == Finish64(TakeHalf64(h, Word(d[..4])), d[4..])
  {
    WordOf(d[..4]);
    WrapFits(Word(d[..4]));
    MixHalf64Turns(h, Word(d[..4]));
    NextIs64(h, d, 4, MixHalf64(h, Word(d[..4])));
  }

  lemma NextByte64(h: u64, d: Bytes)
    requires 0 < |d| < 4
    ensures Finish64(h, d) == Finish64(TakeByte64(h, d[0]), d[1..])
  {
    assert d[..1][1..] == [] && LittleEndian(d[..1]) == d[0];
    WrapFits(d[0]);
    MixByte64Turns(h, d[0]);
    NextIs64(h, d, 1, MixByte64(h, d[0]));
  }

  lemma NextIs64(h: u64, d: Bytes, n: nat, m: u64)
    requires d != [] && n == (if |d| >= 8 then 8 else if |d| >= 4 then 4 else 1) && Mix64Unit(h, d[..n]) == m
    ensures Finish64(h, d) == Finish64(m, d[n..])
  {
  }

  lemma StripeOf64(seed: u64, d: Bytes, acc: Lanes)
    requires |d| == 32 && acc == Round(Xxh64(), InitAccs64(seed), d)
    ensures HashOf(Xxh64(), seed, d) == Avalanche64((MergeAccs64(acc) + 32) % 0x1_0000_0000_0000_0000)
  {
    StripePath(Xxh64(), seed, d);
    FinishedNone(AddLength64(MergeAccs64(acc), 32), []);
  }

  lemma FinishedNone(h: u64, none: Bytes)
    requires none == []
    ensures Finish64(h, none) == Avalanche64(h)
  {
  }
}
