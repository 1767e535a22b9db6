/** XXH32 and XXH64 of the shortest input of each path, for every seed and all bytes, with every constant and
    rotation written out as a number: the empty input, one unit of each kind, one whole stripe. */
module XxhPaths {
  import opened Widths
  import opened Words
  import opened Bits
  import opened XxhClassic
  import opened XxhAlgorithms
  import opened XxhInjective

  /** A rotation as an exchange of the two parts of a number: the part below `low` goes up by the factor `up`. */
  function Turn(x: nat, low: nat, up: nat): nat
    requires low > 0
  {
    x % low * up + x / low
  }

  lemma QuotientIs(x: nat, q: nat, p: nat)
    requires q * p <= x < q * p + p
    ensures x / p == q && x % p == x - q * p
  {
    var k := x / p;
    assert x == k * p + x % p;
    assert k < q ==> (k + 1) * p <= q * p;
    assert k > q ==> (q + 1) * p <= k * p;
  }

  lemma TurnWithin(x: nat, r: nat, s: nat, low: nat, up: nat, t: nat)
    requires Pow2(s) == low && Pow2(r) == up && Pow2(r + s) == t && x < t
    ensures (Up(x, r) + Down(x, s)) % t == Turn(x, low, up)
  {
    Rotation(x, r, r + s);
    PartsTurned(x, Down(x, s), low, up);
  }

  lemma PartsTurned(x: nat, h: nat, low: nat, up: nat)
    requires 0 <= x - h * low < low
    ensures Turn(x, low, up) == (x - h * low) * up + h
  {
    QuotientIs(x, h, low);
  }

  /** A rotation of 32 bits by r. */
  lemma Turn32(x: u32, r: nat, s: nat, low: nat, up: nat)
    requires r + s == 32 && Pow2(s) == low && Pow2(r) == up
    ensures Rotl32(x, r) == Turn(x, low, up)
  {
    Pow2Of32();
    TurnWithin(x, r, s, low, up, TWO_32);
  }

  /** y is x ^ (x >> k) in n bits. */
  ghost predicate FoldsTo(x: nat, k: nat, y: nat, n: nat) {
    y < Pow2(n) && forall i: nat :: i < n ==> (Bit(y, i) == 1 <==> Bit(x, i) != Bit(x, k + i))
  }

  lemma XorFolds(x: nat, k: nat, n: nat)
    ensures FoldsTo(x, k, XorBits(x, Down(x, k), n), n)
  {
    forall i: nat | i < n ensures Bit(XorBits(x, Down(x, k), n), i) == 1 <==> Bit(x, i) != Bit(x, k + i) {
      BitOfXor(x, Down(x, k), n, i);
      BitOfDown(x, k, i);
    }
  }

  // ---- XXH32 ----

  /** How XXH32 ends. */
  lemma Avalanche32Folds(h: u32) returns (u: u32, v: u32)
    ensures FoldsTo(h, 15, u, 32)
    ensures FoldsTo(u * 0x85EBCA77 % 0x1_0000_0000, 13, v, 32)
    ensures FoldsTo(v * 0xC2B2AE3D % 0x1_0000_0000, 16, Avalanche32(h), 32)
  {
    u := XorShift32(h, 15);
    var a := Cut(u * 0x85EBCA77);
    v := XorShift32(a, 13);
    XorFolds(h, 15, 32);
    XorFolds(a, 13, 32);
    XorFolds(Cut(v * 0xC2B2AE3D), 16, 32);
  }

  /** Four bytes as a little-endian number. */
  function Word(b: Bytes): (w: u32)
    requires |b| == 4
  {
    b[0] as int + 0x100 * b[1] as int + 0x1_0000 * b[2] as int + 0x100_0000 * b[3] as int
  }

  lemma WordOf(b: Bytes)
    requires |b| == 4
    ensures LittleEndian(b) == Word(b)
  {
    assert LittleEndian(b[1..]) == b[1] + 0x100 * LittleEndian(b[1..][1..]) && b[1..][1..] == b[2..];
    assert LittleEndian(b[2..]) == b[2] + 0x100 * LittleEndian(b[2..][1..]) && b[2..][1..] == b[3..];
    assert LittleEndian(b[3..]) == b[3] + 0x100 * LittleEndian(b[3..][1..]) && b[3..][1..] == [];
  }

  /** What a byte of the tail, a word of the tail and a word of a stripe do to the hash or to a lane. */
  lemma MixByte32Turns(h: u32, b: u32)
    ensures MixByte32(h, b) == Turn((h + b * 0x165667B1) % 0x1_0000_0000, 0x20_0000, 0x800) * 0x9E3779B1 % 0x1_0000_0000
  {
    assert Pow2(11) == 0x800 && Pow2(21) == 0x20_0000;
    Turn32(Cut(h + b * 0x165667B1), 11, 21, 0x20_0000, 0x800);
  }

  lemma MixWord32Turns(h: u32, w: u32)
    ensures MixWord32(h, w) == Turn((h + w * 0xC2B2AE3D) % 0x1_0000_0000, 0x8000, 0x2_0000) * 0x27D4EB2F % 0x1_0000_0000
  {
    assert Pow2(15) == 0x8000 && Pow2(17) == 0x2_0000;
    Turn32(Cut(h + w * 0xC2B2AE3D), 17, 15, 0x8000, 0x2_0000);
  }

  lemma Round32Turns(acc: u32, w: u32)
    ensures Round32(acc, w) == Turn((acc + w * 0x85EBCA77) % 0x1_0000_0000, 0x8_0000, 0x2000) * 0x9E3779B1 % 0x1_0000_0000
  {
    assert Pow2(19) == 0x8_0000 && Pow2(13) == 0x2000;
    Turn32(Cut(acc + w * 0x85EBCA77), 13, 19, 0x8_0000, 0x2000);
  }

  lemma ReadsWord(b: Bytes)
    requires |b| == 4
    ensures Cut(LittleEndian(b)) == Word(b)
  {
    WordOf(b);
    CutFits(Word(b));
  }

  // ---- the paths of XXH32 ----

  /** An input below a stripe. */
  lemma ShortPath(a: Algo, seed: u64, d: Bytes)
    requires Legal(a) && |d| < StripeOf(a)
    ensures HashOf(a, seed, d) == a.finish(a.addLength(a.short(seed), |d|), d)
  {
  }

  /** An input of a stripe and more: the merge of the lanes after its whole stripes and its length go into the bytes
      left over. */
  lemma LongPath(a: Algo, seed: u64, d: Bytes, v: Lanes, rest: Bytes)
    requires Legal(a) && |d| >= 4 * a.width && v == Rounds(a, a.initAccs(seed), d)
    requires rest == d[|d| - |d| % (4 * a.width)..]
    ensures HashOf(a, seed, d) == a.finish(a.addLength(a.merge(v), |d|), rest)
  {
    RestLength(a, d);
  }

  lemma StripePath(a: Algo, seed: u64, d: Bytes)
    requires Legal(a) && |d| == StripeOf(a)
    ensures HashOf(a, seed, d) == a.finish(a.addLength(a.merge(Round(a, a.initAccs(seed), d)), |d|), [])
  {
    assert d[..|d|] == d && d[|d|..] == [];
    assert Rounds(a, a.initAccs(seed), d) == Rounds(a, Round(a, a.initAccs(seed), d), []);
    assert Rest(a, d) == Rest(a, []);
  }

  lemma Ended32(h: u64, m: u32, none: Bytes)
    requires h == m && none == []
    ensures Finish32(h, none) == Avalanche32(m)
  {
    CutFits(h);
  }

  /** h is the seed, the constant and the length. */
  lemma ShortOf32(seed: u32, d: Bytes, h: u32)
    requires |d| < 16 && h == (seed + 0x165667B1 + |d|) % 0x1_0000_0000
    ensures HashOf(Xxh32(), seed, d) == Finish32(h, d)
  {
    ShortPath(Xxh32(), seed, d);
    CutTwice(|d|, seed + 0x165667B1);
  }

  /** No input. */
  lemma Xxh32OfNone(seed: u32, d: Bytes, h: u32)
    requires d == [] && h == (seed + 0x165667B1) % 0x1_0000_0000
    ensures HashOf(Xxh32(), seed, d) == Avalanche32(h)
  {
    ShortOf32(seed, d, h);
    Ended32(h, h, d);
  }

  /** One byte. */
  lemma Xxh32OfByte(seed: u32, d: Bytes, h: u32)
    requires |d| == 1 && h == (seed + 0x165667B1 + 1) % 0x1_0000_0000
    ensures HashOf(Xxh32(), seed, d)
         == Avalanche32(Turn((h + d[0] as int * 0x165667B1) % 0x1_0000_0000, 0x20_0000, 0x800)
                        * 0x9E3779B1 % 0x1_0000_0000)
  {
    ShortOf32(seed, d, h);
    LastByte32(h, d);
  }

  /** One word of four bytes. */
  lemma Xxh32OfWord(seed: u32, d: Bytes, h: u32)
    requires |d| == 4 && h == (seed + 0x165667B1 + 4) % 0x1_0000_0000
    ensures HashOf(Xxh32(), seed, d)
         == Avalanche32(Turn((h + Word(d) * 0xC2B2AE3D) % 0x1_0000_0000, 0x8000, 0x2_0000)
                        * 0x27D4EB2F % 0x1_0000_0000)
  {
    ShortOf32(seed, d, h);
    LastWord32(h, d);
  }

  lemma LastByte32(h: u32, d: Bytes)
    requires |d| == 1
    ensures Finish32(h, d) == Avalanche32(Turn((h + d[0] as int * 0x165667B1) % 0x1_0000_0000, 0x20_0000, 0x800)
                                          * 0x9E3779B1 % 0x1_0000_0000)
  {
    NextByte32(h, d);
    var m := Turn((h + d[0] as int * 0x165667B1) % 0x1_0000_0000, 0x20_0000, 0x800) * 0x9E3779B1 % 0x1_0000_0000;
    Ended32(m, m, d[1..]);
  }

  lemma LastWord32(h: u32, d: Bytes)
    requires |d| == 4
    ensures Finish32(h, d) == Avalanche32(Turn((h + Word(d) * 0xC2B2AE3D) % 0x1_0000_0000, 0x8000, 0x2_0000)
                                          * 0x27D4EB2F % 0x1_0000_0000)
  {
    NextWord32(h, d);
    assert d[..4] == d;
    var m := Turn((h + Word(d) * 0xC2B2AE3D) % 0x1_0000_0000, 0x8000, 0x2_0000) * 0x27D4EB2F % 0x1_0000_0000;
    Ended32(m, m, d[4..]);
  }

  /** What a lane of XXH32 makes of its word. */
  function Lane32(acc: nat, b: Bytes): u32
    requires |b| == 4
  {
    Turn((acc + Word(b) * 0x85EBCA77) % 0x1_0000_0000, 0x8_0000, 0x2000) * 0x9E3779B1 % 0x1_0000_0000
  }

  lemma RoundIsLane32(acc: u64, b: Bytes)
    requires acc < TWO_32 && |b| == 4
    ensures Mix32(acc, Read32(b)) == Lane32(acc, b)
  {
    ReadsWord(b);
    CutFits(acc);
    CutFits(Word(b));
    Round32Turns(acc, Word(b));
  }

  /** The start values of the lanes, what a stripe makes of them, and what is made of them at the end: they are turned
      by 1, 7, 12 and 18 bits and added. */
  function First32(seed: u32): Lanes {
    [(seed + 0x2423_4428) % 0x1_0000_0000, (seed + 0x85EB_CA77) % 0x1_0000_0000, seed,
     (seed + 0x61C8_864F) % 0x1_0000_0000]
  }

  function Taken32(acc: Lanes, d: Bytes): Lanes
    requires |d| >= 16
  {
    [Lane32(acc[0], d[0..4]), Lane32(acc[1], d[4..8]), Lane32(acc[2], d[8..12]), Lane32(acc[3], d[12..16])]
  }

  function Merged32(acc: Lanes): u32 {
    Total32(Turn(acc[0], 0x8000_0000, 2), Turn(acc[1], 0x200_0000, 0x80), Turn(acc[2], 0x10_0000, 0x1000),
            Turn(acc[3], 0x4000, 0x4_0000))
  }

  function Total32(w: nat, x: nat, y: nat, z: nat): u32 {
    (w + x + y + z) % 0x1_0000_0000
  }

  predicate Small(acc: Lanes) {
    forall i :: 0 <= i < 4 ==> acc[i] < TWO_32
  }

  lemma FirstOf32(seed: u32)
    ensures Init32(seed) == First32(seed) && Small(First32(seed))
  {
    CutFits(seed);
    assert seed + 0x9E3779B1 + 0x85EBCA77 == seed + 0x2423_4428 + 0x1_0000_0000;
  }

  lemma MergeOf32(acc: Lanes)
    requires Small(acc)
    ensures MergeAccs32(acc) == Merged32(acc)
  {
    TurnsOfLane(acc[0]);
    TurnsOfLane(acc[1]);
    TurnsOfLane(acc[2]);
    TurnsOfLane(acc[3]);
    SumIs(Rotl32(Cut(acc[0]), 1), Rotl32(Cut(acc[1]), 7), Rotl32(Cut(acc[2]), 12), Rotl32(Cut(acc[3]), 18),
          Turn(acc[0], 0x8000_0000, 2), Turn(acc[1], 0x200_0000, 0x80), Turn(acc[2], 0x10_0000, 0x1000),
          Turn(acc[3], 0x4000, 0x4_0000));
  }

  lemma SumIs(a: u32, b: u32, c: u32, d: u32, w: nat, x: nat, y: nat, z: nat)
    requires a == w && b == x && c == y && d == z
    ensures Sum32(a, b, c, d) == Total32(w, x, y, z)
  {
  }

  lemma TurnsOfLane(x: u64)
    requires x < TWO_32
    ensures Rotl32(Cut(x), 1) == Turn(x, 0x8000_0000, 2) && Rotl32(Cut(x), 7) == Turn(x, 0x200_0000, 0x80)
    ensures Rotl32(Cut(x), 12) == Turn(x, 0x10_0000, 0x1000) && Rotl32(Cut(x), 18) == Turn(x, 0x4000, 0x4_0000)
  {
    CutFits(x);
    Pow2Sum(16, 15);
    Pow2Sum(12, 13);
    assert Pow2(1) == 2 && Pow2(7) == 0x80 && Pow2(12) == 0x1000 && Pow2(18) == 0x4_0000;
    assert Pow2(16) == 0x1_0000 && Pow2(15) == 0x8000 && Pow2(13) == 0x2000 && Pow2(14) == 0x4000 && Pow2(20) == 0x10_0000;
    Turn32(x, 1, 31, 0x8000_0000, 2);
    Turn32(x, 7, 25, 0x200_0000, 0x80);
    Turn32(x, 12, 20, 0x10_0000, 0x1000);
    Turn32(x, 18, 14, 0x4000, 0x4_0000);
  }

  lemma RoundIsTaken32(acc: Lanes, stripe: Bytes)
    requires |stripe| == 16 && Small(acc)
    ensures Round(Xxh32(), acc, stripe) == Taken32(acc, stripe)
  {
    RoundIsLane32(acc[0], stripe[0..4]);
    RoundIsLane32(acc[1], stripe[4..8]);
    RoundIsLane32(acc[2], stripe[8..12]);
    RoundIsLane32(acc[3], stripe[12..16]);
  }

  /** One whole stripe. */
  lemma Xxh32OfStripe(seed: u32, d: Bytes)
    requires |d| == 16
    ensures HashOf(Xxh32(), seed, d) == Avalanche32((Merged32(Taken32(First32(seed), d)) + 16) % 0x1_0000_0000)
  {
    FirstOf32(seed);
    RoundIsTaken32(First32(seed), d);
    StripePath(Xxh32(), seed, d);
    EndedByLanes32(Taken32(First32(seed), d), []);
  }

  lemma EndedByLanes32(acc: Lanes, none: Bytes)
    requires Small(acc) && none == []
    ensures Finish32(AddLength32(Merge32(acc), 16), none) == Avalanche32((Merged32(acc) + 16) % 0x1_0000_0000)
  {
    MergeOf32(acc);
    var h := AddLength32(Merge32(acc), 16);
    Ended32(h, h, none);
  }

  /** Any further stripe: each lane takes its word. */
  lemma NextStripe32(acc: Lanes, d: Bytes)
    requires |d| >= 16 && Small(acc)
    ensures Rounds(Xxh32(), acc, d) == Rounds(Xxh32(), Taken32(acc, d), d[16..])
  {
    var s := d[..16];
    assert s[0..4] == d[0..4] && s[4..8] == d[4..8] && s[8..12] == d[8..12] && s[12..16] == d[12..16];
    RoundIsTaken32(acc, s);
    assert Taken32(acc, s) == Taken32(acc, d);
  }

  /** The units of a tail, one after the other from its start. */
  lemma NextUnit32(h: u32, d: Bytes)
    requires d != []
    ensures |d| >= 4 ==>
              Finish32(h, d) == Finish32(Turn((h + Word(d[..4]) * 0xC2B2AE3D) % 0x1_0000_0000, 0x8000, 0x2_0000)
                                         * 0x27D4EB2F % 0x1_0000_0000, d[4..])
    ensures |d| < 4 ==>
              Finish32(h, d) == Finish32(Turn((h + d[0] as int * 0x165667B1) % 0x1_0000_0000, 0x20_0000, 0x800)
                                         * 0x9E3779B1 % 0x1_0000_0000, d[1..])
  {
    if |d| >= 4 {
      NextWord32(h, d);
    } else {
      NextByte32(h, d);
    }
  }

  lemma NextWord32(h: u32, d: Bytes)
    requires |d| >= 4
    ensures Finish32(h, d) == Finish32(Turn((h + Word(d[..4]) * 0xC2B2AE3D) % 0x1_0000_0000, 0x8000, 0x2_0000)
                                       * 0x27D4EB2F % 0x1_0000_0000, d[4..])
  {
    ReadsWord(d[..4]);
    CutFits(h);
    MixWord32Turns(h, Word(d[..4]));
    assert Finish32(h, d) == Finish32(Mix32Unit(h, d[..4]), d[4..]);
  }

  lemma NextByte32(h: u32, d: Bytes)
    requires 0 < |d| < 4
    ensures Finish32(h, d) == Finish32(Turn((h + d[0] as int * 0x165667B1) % 0x1_0000_0000, 0x20_0000, 0x800)
                                       * 0x9E3779B1 % 0x1_0000_0000, d[1..])
  {
    assert d[..1][1..] == [] && LittleEndian(d[..1]) == d[0];
    CutFits(h);
    CutFits(d[0]);
    MixByte32Turns(h, d[0]);
    assert Finish32(h, d) == Finish32(Mix32Unit(h, d[..1]), d[1..]);
  }
}
