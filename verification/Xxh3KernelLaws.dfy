/** One step of the XXH3 kernels, lane by lane and bit by bit, with every constant as a number. */
module Xxh3KernelLaws {
  import opened Widths
  import opened Words
  import opened Bits
  import opened XxhPaths
  import opened Xxh64Paths
  import opened Xxh3Reference
  import opened Xxh3Kernels

  /** What is read of a lane. */
  lemma ReadsLane(b: Bytes, i: nat)
    requires 8 * i + 8 <= |b|
    ensures Read64(b, i) == Word8(b[8 * i..8 * i + 8])
  {
    ReadsWord8(b[8 * i..8 * i + 8]);
    Pow2Of64();
    WrapFits(LittleEndian(b[8 * i..8 * i + 8]));
  }

  /** The other lane of a pair. */
  function Other(i: nat): nat {
    if i % 2 == 0 then i + 1 else i - 1
  }

  lemma ProductIs(key: u64)
    ensures Mul(Low32(key), High32(key)) == (key % 0x1_0000_0000) * (key / 0x1_0000_0000)
  {
    PartialProduct(Low32(key), High32(key));
  }

  /** What is still to come to a lane when the rounds from `lane` on are open: v from its neighbour, p of its own. */
  function Due(a: u64, v: u64, p: u64, lane: nat, i: nat): u64 {
    Add(Add(a, if Other(i) >= lane then v else 0), if i >= lane then p else 0)
  }

  lemma DueAfterRound(a: u64, v: u64, p: u64, lane: nat, i: nat)
    ensures Due(a, v, p, lane, i)
         == Due(if i == lane then Add(p, a) else if Other(i) == lane then Add(a, v) else a, v, p, lane + 1, i)
  {
    AddRegroups(p, a, v);
  }

  lemma OneRound(acc: Acc, lane: nat, data: u64, product: u64, i: nat)
    requires lane < 8 && i < 8
    ensures LaneRound(acc, lane, data, product)[i]
         == if i == lane then Add(product, acc[i]) else if Other(i) == lane then Add(acc[i], data) else acc[i]
  {
  }

  /** The product a lane adds to itself. */
  function OwnProduct(input: Bytes, secret: Bytes, lane: nat): u64 {
    Mul(Low32(DataKey(input, secret, lane)), High32(DataKey(input, secret, lane)))
  }

  lemma RoundOfLane(acc: Acc, input: Bytes, secret: Bytes, lane: nat)
    requires lane < 8
    ensures ScalarRound(acc, input, secret, lane)
         == LaneRound(acc, lane, Read64(input, lane), OwnProduct(input, secret, lane))
  {
  }

  lemma {:induction false} FromLane(acc: Acc, input: Bytes, secret: Bytes, lane: nat, i: nat, v: u64, p: u64)
    requires lane <= 8 && i < 8
    requires v == Read64(input, Other(i)) && p == OwnProduct(input, secret, i)
    ensures ScalarFrom(acc, input, secret, lane)[i] == Due(acc[i], v, p, lane, i)
    decreases 8 - lane
  {
    if lane < 8 {
      RoundOfLane(acc, input, secret, lane);
      OneRound(acc, lane, Read64(input, lane), OwnProduct(input, secret, lane), i);
      DueAfterRound(acc[i], v, p, lane, i);
      FromLane(ScalarRound(acc, input, secret, lane), input, secret, lane + 1, i, v, p);
    }
  }

  /** Each lane takes in its neighbour's input and its own product; Add wraps modulo 2^64. */
  lemma AccumulateByLane(acc: Acc, input: Bytes, secret: Bytes, i: nat)
    requires i < 8
    ensures ScalarAccumulate(acc, input, secret)[i]
         == Add(Add(acc[i], Read64(input, Other(i))), OwnProduct(input, secret, i))
  {
    FromLane(acc, input, secret, 0, i, Read64(input, Other(i)), OwnProduct(input, secret, i));
  }

  /** That product is the product of the halves of the key, whole: the key is the input xored with the secret. */
  lemma ProductOfKey(input: Bytes, secret: Bytes, i: nat, key: u64)
    requires key == Xor(Read64(input, i), Read64(secret, i))
    ensures OwnProduct(input, secret, i) == (key % 0x1_0000_0000) * (key / 0x1_0000_0000)
  {
    ProductIs(key);
  }

  // ---- scramble ----

  lemma {:induction false} ScrambledFrom(acc: Acc, secret: Bytes, lane: nat, i: nat)
    requires lane <= 8 && i < 8
    ensures ScalarScrambleFrom(acc, secret, lane)[i]
         == if i >= lane then ScrambledLane(acc[i], Read64(secret, i)) else acc[i]
    decreases 8 - lane
  {
    if lane < 8 {
      ScrambledFrom(acc[lane := ScrambledLane(acc[lane], Read64(secret, lane))], secret, lane + 1, i);
    }
  }

  lemma ShiftedDown47(x: u64)
    ensures ShiftRight47(x) == Down(x, 47)
  {
    Pow2Of32();
    assert Pow2(15) == 0x8000;
    HighPower(15, 0x8000_0000_0000);
    DownIsQuotient(x, 47);
    QuotientIs(x, Down(x, 47), 0x8000_0000_0000);
  }

  /** A lane is folded by 47 bits, xored with its part of the secret, and multiplied. */
  lemma ScrambleByLane(acc: Acc, secret: Bytes, i: nat) returns (folded: u64)
    requires i < 8
    ensures FoldsTo(acc[i], 47, folded, 64)
    ensures ScalarScramble(acc, secret)[i] == Xor(folded, Read64(secret, i)) * 0x9E3779B1 % 0x1_0000_0000_0000_0000
  {
    folded := Xor(acc[i], ShiftRight47(acc[i]));
    ScrambledFrom(acc, secret, 0, i);
    ShiftedDown47(acc[i]);
    Pow2Of64();
    XorFolds(acc[i], 47, 64);
  }

  // ---- the derived secret ----

  /** The seed is added to the even lanes of the default secret and taken from the odd ones. */
  lemma DerivedSecret(kSecret: DefaultSecret, seed: u64, i: nat)
    requires i < 24
    ensures Read64(ScalarSecret(kSecret, seed), i)
         == (if i % 2 == 0 then Read64(kSecret, i) + seed else Read64(kSecret, i) + 0x1_0000_0000_0000_0000 - seed)
            % 0x1_0000_0000_0000_0000
  {
    var word := (lane: nat) => ScalarWord(kSecret, seed, lane);
    SecretReadsBack(word, i);
    WordMoved(kSecret, seed, i);
  }

  lemma WordMoved(kSecret: DefaultSecret, seed: u64, i: nat)
    ensures ScalarWord(kSecret, seed, i)
         == (if i % 2 == 0 then Read64(kSecret, i) + seed else Read64(kSecret, i) + 0x1_0000_0000_0000_0000 - seed)
            % 0x1_0000_0000_0000_0000
  {
  }
}
