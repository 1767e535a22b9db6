/** Bytes and 64-bit words as the C code computes with them: every operation wraps modulo 2^64. */
module Words {
  import opened Widths

  type u8 = x: int | 0 <= x < 256
  type u64 = x: int | 0 <= x < 0x1_0000_0000_0000_0000
  type Bytes = seq<u8>

  function Wrap(x: nat): (r: u64) {
    x % TWO_64
  }

  function Add(x: u64, y: u64): u64 {
    if x + y < TWO_64 then x + y else x + y - TWO_64
  }

  function Sub(x: u64, y: u64): u64 {
    if x >= y then x - y else x - y + TWO_64
  }

  function Mul(x: u64, y: u64): u64 {
    Wrap(x * y)
  }

  /** x & 0xFFFFFFFF and x >> 32. */
  function Low32(x: u64): (r: u64)
    ensures r < TWO_32
  {
    x % TWO_32
  }

  function High32(x: u64): (r: u64)
    ensures r < TWO_32
  {
    x / TWO_32
  }

  /** x << 32. */
  function Up32(x: u64): u64 {
    Wrap(x * TWO_32)
  }

  function Pow2(k: nat): (p: nat)
    ensures p > 0
  {
    if k == 0 then 1 else 2 * Pow2(k - 1)
  }

  /** x << k and x >> k, before any cut. */
  function Up(x: nat, k: nat): nat {
    if k == 0 then x else 2 * Up(x, k - 1)
  }

  function Down(x: nat, k: nat): nat {
    if k == 0 then x else Down(x / 2, k - 1)
  }

  /** Exclusive or, bit by bit. */
  function XorBits(x: nat, y: nat, k: nat): (r: nat)
    ensures r < Pow2(k)
  {
    if k == 0 then 0 else 2 * XorBits(x / 2, y / 2, k - 1) + (x + y) % 2
  }

  lemma Pow2Of64()
    ensures Pow2(64) == TWO_64
  {
    assert Pow2(4) == 16;
    Pow2Sum(4, 4);
    Pow2Sum(8, 8);
    Pow2Sum(16, 16);
    Pow2Sum(32, 32);
  }

  lemma {:induction false} Pow2Sum(a: nat, b: nat)
    ensures Pow2(a + b) == Pow2(a) * Pow2(b)
  {
    if a > 0 {
      Pow2Sum(a - 1, b);
    }
  }

  function Xor(x: u64, y: u64): u64 {
    Pow2Of64();
    XorBits(x, y, 64)
  }

  /** Inclusive or, bit by bit. */
  function OrBits(x: nat, y: nat, k: nat): (r: nat)
    ensures r < Pow2(k)
  {
    if k == 0 then 0
    else 2 * OrBits(x / 2, y / 2, k - 1) + (if x % 2 == 0 && y % 2 == 0 then 0 else 1)
  }

  function Or(x: u64, y: u64): u64 {
    Pow2Of64();
    OrBits(x, y, 64)
  }

  /** The bits of a number shifted up by j and of one below 2^j do not meet. */
  lemma {:induction false} OrOfShifted(a: nat, y: nat, j: nat, k: nat)
    requires y < Pow2(j) && j <= k && a * Pow2(j) + y < Pow2(k)
    ensures OrBits(a * Pow2(j), y, k) == a * Pow2(j) + y
    decreases k
  {
    if k > 0 {
      if j == 0 {
        OrHalf(a, k);
      } else {
        var h := a * Pow2(j - 1);
        TwiceTheHalf(a, Pow2(j - 1));
        OrOfShifted(a, y / 2, j - 1, k - 1);
        OrStep(h, y, k);
      }
    }
  }

  lemma TwiceTheHalf(a: nat, p: nat)
    ensures a * (2 * p) == 2 * (a * p)
  {
  }

  lemma OrStep(h: nat, y: nat, k: nat)
    requires k > 0 && OrBits(h, y / 2, k - 1) == h + y / 2
    ensures OrBits(2 * h, y, k) == 2 * h + y
  {
  }

  lemma {:induction false} OrHalf(a: nat, k: nat)
    requires a < Pow2(k)
    ensures OrBits(a * Pow2(0), 0, k) == a
    decreases k
  {
    assert a * Pow2(0) == a;
    if k > 0 {
      OrHalf(a / 2, k - 1);
      assert a / 2 * Pow2(0) == a / 2;
    }
  }

  /** So joining two halves by `|` is adding them. */
  lemma OrOfHalves(high: nat, low: nat)
    requires high < TWO_32 && low < TWO_32
    ensures Or(high * TWO_32, low) == high * TWO_32 + low
  {
    Pow2Of32();
    Pow2Of64();
    OrWithin(high, low, 32, 64);
  }

  lemma OrWithin(high: nat, low: nat, j: nat, k: nat)
    requires Pow2(j) == TWO_32 && Pow2(k) == TWO_64 && j <= k && high < TWO_32 && low < TWO_32
    ensures OrBits(high * TWO_32, low, k) == high * TWO_32 + low
  {
    OrOfShifted(high, low, j, k);
  }

  lemma Pow2Of32()
    ensures Pow2(32) == TWO_32
  {
    assert Pow2(4) == 16;
    Pow2Sum(4, 4);
    Pow2Sum(8, 8);
    Pow2Sum(16, 16);
  }

  /** x >> 47. */
  function ShiftRight47(x: u64): u64 {
    x / 0x8000_0000_0000
  }

  /** The little-endian number these bytes spell. */
  function LittleEndian(b: Bytes): (r: nat)
    ensures r < Pow2(8 * |b|)
  {
    if b == [] then 0
    else
      Pow2Sum(8, 8 * (|b| - 1));
      assert Pow2(8) == 256;
      b[0] + 256 * LittleEndian(b[1..])
  }

  /** The n low bytes of a number, little-endian. */
  function ToBytes(x: nat, n: nat): (b: Bytes)
    ensures |b| == n
  {
    if n == 0 then [] else [x % 256] + ToBytes(x / 256, n - 1)
  }

  lemma {:induction false} BytesReadBack(x: nat, n: nat)
    requires x < Pow2(8 * n)
    ensures LittleEndian(ToBytes(x, n)) == x
    decreases n
  {
    if n > 0 {
      Pow2Sum(8, 8 * (n - 1));
      assert Pow2(8) == 256;
      BytesReadBack(x / 256, n - 1);
      assert ToBytes(x, n)[1..] == ToBytes(x / 256, n - 1);
    }
  }

  /** XXH_readLE64 of the 8 bytes of a lane (0 where a block is too short: no caller reads there). */
  function Read64(b: Bytes, lane: nat): u64 {
    if 8 * lane + 8 <= |b| then Pow2Of64(); LittleEndian(b[8 * lane..8 * lane + 8]) else 0
  }

  /** The input that a sequence of chunks makes up. */
  function Joined(chunks: seq<Bytes>): Bytes {
    if chunks == [] then [] else Joined(chunks[..|chunks| - 1]) + chunks[|chunks| - 1]
  }

  lemma {:induction false} JoinedLength(chunks: seq<Bytes>, i: nat)
    requires i <= |chunks|
    ensures |Joined(chunks[..i])| <= |Joined(chunks)|
    decreases |chunks|
  {
    if i < |chunks| {
      JoinedLength(chunks[..|chunks| - 1], i);
      assert chunks[..|chunks| - 1][..i] == chunks[..i];
    } else {
      assert chunks[..i] == chunks;
    }
  }

  /** memcpy into a buffer. */
  method CopyTo(dst: array<u8>, at: nat, src: Bytes)
    requires at + |src| <= dst.Length
    modifies dst
    ensures forall j :: 0 <= j < dst.Length ==>
              dst[j] == if at <= j < at + |src| then src[j - at] else old(dst[j])
    ensures dst[..at] == old(dst[..at]) && dst[at..at + |src|] == src
    ensures dst[at + |src|..] == old(dst[at + |src|..])
  {
    for i := 0 to |src|
      invariant forall j :: 0 <= j < dst.Length ==>
                  dst[j] == if at <= j < at + i then src[j - at] else old(dst[j])
    {
      dst[at + i] := src[i];
    }
  }
}
