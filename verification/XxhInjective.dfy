/** What XXH32 and XXH64 lose nothing of: two inputs of the same length that differ in one unit the code reads
    at once, a word or a tail byte, have different hashes (in XXH64, if the unit is behind the whole stripes). */
module XxhInjective {
  import opened Widths
  import opened Words
  import opened Bits
  import opened XxhPrimes
  import opened XxhClassic
  import opened XxhAlgorithms

  // ---- steps modulo 2^32 ----

  /** The odd constants have inverses modulo 2^32. */
  lemma Inverse32(p: nat) returns (q: nat, m: nat)
    requires p in {PRIME32_1, PRIME32_2, PRIME32_3, PRIME32_4, PRIME32_5}
    ensures p * q == m * TWO_32 + 1
  {
    if p == PRIME32_1 {
      q, m := 0xe8b2f51, 0x8fd0e05;
    } else if p == PRIME32_2 {
      q, m := 0xb6c92f47, 0x5f9ee0ce;
    } else if p == PRIME32_3 {
      q, m := 0xa89ed915, 0x803e11b9;
    } else if p == PRIME32_4 {
      q, m := 0xa0fe3bcf, 0x190ca18d;
    } else {
      q, m := 0xae398151, 0xf33bf00;
    }
  }

  lemma Factor32(x: u32, y: u32, p: nat)
    requires p in {PRIME32_1, PRIME32_2, PRIME32_3, PRIME32_4, PRIME32_5} && Cut(x * p) == Cut(y * p)
    ensures x == y
  {
    var q, m := Inverse32(p);
    FactorCancels(x, y, p, q, m, TWO_32);
  }

  lemma Rotl32Injective(x: u32, y: u32, r: nat)
    requires r <= 32 && Rotl32(x, r) == Rotl32(y, r)
    ensures x == y
  {
    Pow2Of32();
    RotlWithin(x, y, r, 32, TWO_32);
  }

  lemma RotlWithin(x: nat, y: nat, r: nat, n: nat, t: nat)
    requires r <= n && Pow2(n) == t && x < t && y < t
    requires (Up(x, r) + Down(x, n - r)) % t == (Up(y, r) + Down(y, n - r)) % t
    ensures x == y
  {
    RotationInjective(x, y, r, n);
  }

  lemma XorShift32Injective(x: u32, y: u32, k: nat)
    requires k > 0 && XorShift32(x, k) == XorShift32(y, k)
    ensures x == y
  {
    Pow2Of32();
    XorShiftWithin(x, y, k, 32);
  }

  lemma XorShiftWithin(x: nat, y: nat, k: nat, n: nat)
    requires k > 0 && x < Pow2(n) && y < Pow2(n) && XorBits(x, Down(x, k), n) == XorBits(y, Down(y, k), n)
    ensures x == y
  {
    XorShiftInjective(x, y, k, n);
  }

  lemma CutSum(a: nat, n: nat)
    ensures Cut(a + n) == Cut(Cut(n) + a)
  {
  }

  /** hash + word * prime loses nothing of either. */
  lemma Added32(h: u32, g: u32, w: u32, v: u32, p: nat)
    requires p in {PRIME32_1, PRIME32_2, PRIME32_3, PRIME32_4, PRIME32_5} && Cut(h + w * p) == Cut(g + v * p)
    ensures w == v ==> h == g
    ensures h == g ==> w == v
  {
    if w == v {
      SumCancels(h, g, w * p, TWO_32);
    }
    if h == g {
      CutSum(h, w * p);
      CutSum(h, v * p);
      SumCancels(Cut(w * p), Cut(v * p), h, TWO_32);
      Factor32(w, v, p);
    }
  }

  // ---- XXH32 ----

  lemma Round32Injective(a: u32, b: u32, i: u32, j: u32)
    requires Round32(a, i) == Round32(b, j)
    ensures i == j ==> a == b
    ensures a == b ==> i == j
  {
    var x, y := Cut(a + i * PRIME32_2), Cut(b + j * PRIME32_2);
    Factor32(Rotl32(x, 13), Rotl32(y, 13), PRIME32_1);
    Rotl32Injective(x, y, 13);
    Added32(a, b, i, j, PRIME32_2);
  }

  lemma MixWord32Injective(h: u32, g: u32, w: u32, v: u32)
    requires MixWord32(h, w) == MixWord32(g, v)
    ensures w == v ==> h == g
    ensures h == g ==> w == v
  {
    var x, y := Cut(h + w * PRIME32_3), Cut(g + v * PRIME32_3);
    Factor32(Rotl32(x, 17), Rotl32(y, 17), PRIME32_4);
    Rotl32Injective(x, y, 17);
    Added32(h, g, w, v, PRIME32_3);
  }

  lemma MixByte32Injective(h: u32, g: u32, w: u32, v: u32)
    requires MixByte32(h, w) == MixByte32(g, v)
    ensures w == v ==> h == g
    ensures h == g ==> w == v
  {
    var x, y := Cut(h + w * PRIME32_5), Cut(g + v * PRIME32_5);
    Factor32(Rotl32(x, 11), Rotl32(y, 11), PRIME32_1);
    Rotl32Injective(x, y, 11);
    Added32(h, g, w, v, PRIME32_5);
  }

  lemma Avalanche32Injective(h: u32, g: u32)
    requires Avalanche32(h) == Avalanche32(g)
    ensures h == g
  {
    var a, b := Cut(XorShift32(h, 15) * PRIME32_2), Cut(XorShift32(g, 15) * PRIME32_2);
    var c, d := Cut(XorShift32(a, 13) * PRIME32_3), Cut(XorShift32(b, 13) * PRIME32_3);
    XorShift32Injective(c, d, 16);
    Factor32(XorShift32(a, 13), XorShift32(b, 13), PRIME32_3);
    XorShift32Injective(a, b, 13);
    Factor32(XorShift32(h, 15), XorShift32(g, 15), PRIME32_2);
    XorShift32Injective(h, g, 15);
  }

  /** Two inputs of the same length that agree outside the n bytes at p, and not in them. */
  ghost predicate OneApart(x: Bytes, y: Bytes, p: nat, n: nat) {
    && |x| == |y| && p + n <= |x|
    && x[..p] == y[..p] && x[p..p + n] != y[p..p + n] && x[p + n..] == y[p + n..]
  }

  lemma ApartBehind(x: Bytes, y: Bytes, p: nat, n: nat, k: nat)
    requires OneApart(x, y, p, n) && k <= p
    ensures x[..k] == y[..k] && OneApart(x[k..], y[k..], p - k, n)
  {
    assert x[..k] == x[..p][..k] && y[..k] == y[..p][..k];
    assert x[k..][..p - k] == x[..p][k..] && y[k..][..p - k] == y[..p][k..];
    assert x[k..][p - k..p - k + n] == x[p..p + n] && y[k..][p - k..p - k + n] == y[p..p + n];
    assert x[k..][p - k + n..] == x[p + n..] && y[k..][p - k + n..] == y[p + n..];
  }

  lemma {:induction false} LittleEndianInjective(b: Bytes, c: Bytes)
    requires |b| == |c| && LittleEndian(b) == LittleEndian(c)
    ensures b == c
    decreases |b|
  {
    if b != [] {
      var d, e: int := b[0], c[0];
      assert (d + 256 * LittleEndian(b[1..])) % 256 == d && (e + 256 * LittleEndian(c[1..])) % 256 == e;
      LittleEndianInjective(b[1..], c[1..]);
      assert b == [b[0]] + b[1..] && c == [c[0]] + c[1..];
    }
  }

  // ---- tails, for both algorithms ----

  /** n bytes at p are a unit of a tail of this length. */
  predicate IsUnit(t: Tail, len: nat, p: nat, n: nat)
    decreases len
  {
    len > 0 && var k := UnitOf(t, len); if p == 0 then n == k else k <= p && IsUnit(t, len - k, p - k, n)
  }

  /** A unit loses nothing, of the hash (if that is below the bound) or of the bytes. */
  ghost predicate MixKeeps(t: Tail, bound: nat, h: u64, g: u64, b: Bytes, c: Bytes) {
    && t.mix(h, b) < bound
    && (h < bound && g < bound && t.mix(h, b) == t.mix(g, b) ==> h == g)
    && (|b| == |c| && UnitLength(t, |b|) && t.mix(h, b) == t.mix(h, c) ==> b == c)
  }

  ghost predicate UnitLength(t: Tail, n: nat) {
    exists len :: len > 0 && n == UnitOf(t, len)
  }

  ghost predicate LastKeeps(t: Tail, bound: nat, h: u64, g: u64) {
    h < bound && g < bound && t.last(h) == t.last(g) ==> h == g
  }

  ghost predicate TailKeeps(t: Tail, bound: nat) {
    && (forall h: u64, g: u64, b: Bytes, c: Bytes :: MixKeeps(t, bound, h, g, b, c))
    && (forall h: u64, g: u64 :: LastKeeps(t, bound, h, g))
  }

  lemma {:induction false} FinalizedInjective(t: Tail, bound: nat, h: u64, g: u64, tail: Bytes)
    requires TailKeeps(t, bound) && h < bound && g < bound && Finalized(t, h, tail) == Finalized(t, g, tail)
    ensures h == g
    decreases |tail|
  {
    if tail == [] {
      assert LastKeeps(t, bound, h, g);
    } else {
      var n := UnitOf(t, |tail|);
      assert MixKeeps(t, bound, h, g, tail[..n], []) && MixKeeps(t, bound, g, h, tail[..n], []);
      FinalizedInjective(t, bound, t.mix(h, tail[..n]), t.mix(g, tail[..n]), tail[n..]);
    }
  }

  /** Tails that differ in one unit give different hashes. */
  lemma {:induction false} FinalizedApart(t: Tail, bound: nat, h: u64, x: Bytes, y: Bytes, p: nat, n: nat)
    requires TailKeeps(t, bound) && h < bound && OneApart(x, y, p, n) && IsUnit(t, |x|, p, n)
    ensures Finalized(t, h, x) != Finalized(t, h, y)
    decreases |x|
  {
    var k := UnitOf(t, |x|);
    assert UnitLength(t, k);
    assert MixKeeps(t, bound, h, h, x[..k], y[..k]) && MixKeeps(t, bound, h, h, y[..k], x[..k]);
    if p == 0 {
      assert x[0..n] == x[..k] && y[0..n] == y[..k] && x[n..] == x[k..] && y[n..] == y[k..];
      if Finalized(t, h, x) == Finalized(t, h, y) {
        FinalizedInjective(t, bound, t.mix(h, x[..k]), t.mix(h, y[..k]), x[k..]);
      }
    } else {
      ApartBehind(x, y, p, n, k);
      FinalizedApart(t, bound, t.mix(h, x[..k]), x[k..], y[k..], p - k, n);
    }
  }

  // ---- whole stripes, for both algorithms ----

  /** The accumulators differ in lane l and nowhere else. */
  ghost predicate OneLane(acc: Lanes, b: Lanes, l: nat) {
    l < 4 && forall i :: 0 <= i < 4 ==> (acc[i] != b[i] <==> i == l)
  }

  /** What fits a word of the algorithm. */
  predicate Fits(a: Algo, x: u64) {
    SeedFits(a, x)
  }

  /** A round loses nothing of the accumulator or of the word it takes in. */
  ghost predicate RoundKeeps(a: Algo, x: u64, y: u64, i: u64, j: u64) {
    && Fits(a, a.round(x, i))
    && (Fits(a, x) && Fits(a, y) && a.round(x, i) == a.round(y, i) ==> x == y)
    && (Fits(a, i) && Fits(a, j) && a.round(x, i) == a.round(x, j) ==> i == j)
  }

  ghost predicate ReadKeeps(a: Algo, b: Bytes, c: Bytes) {
    |b| == |c| == a.width ==> Fits(a, a.read(b)) && (a.read(b) == a.read(c) ==> b == c)
  }

  ghost predicate LosesNothing(a: Algo) {
    && Legal(a)
    && (forall x: u64, y: u64, i: u64, j: u64 :: RoundKeeps(a, x, y, i, j))
    && (forall b: Bytes, c: Bytes :: ReadKeeps(a, b, c))
  }

  ghost predicate AllFit(a: Algo, acc: Lanes) {
    forall i :: 0 <= i < 4 ==> Fits(a, acc[i])
  }

  lemma RoundFits(a: Algo, acc: Lanes, stripe: Bytes)
    requires LosesNothing(a) && |stripe| == StripeOf(a)
    ensures AllFit(a, Round(a, acc, stripe))
  {
    forall i | 0 <= i < 4 ensures Fits(a, Round(a, acc, stripe)[i]) {
      assert RoundKeeps(a, acc[i], 0, ReadLane(a, stripe, i), 0);
    }
  }

  /** One lane apart stays one lane apart. */
  lemma RoundKeepsLane(a: Algo, acc: Lanes, b: Lanes, l: nat, stripe: Bytes)
    requires LosesNothing(a) && |stripe| == StripeOf(a) && OneLane(acc, b, l) && AllFit(a, acc) && AllFit(a, b)
    ensures OneLane(Round(a, acc, stripe), Round(a, b, stripe), l)
  {
    assert RoundKeeps(a, acc[l], b[l], ReadLane(a, stripe, l), 0);
  }

  lemma {:induction false} RoundsKeepLane(a: Algo, acc: Lanes, b: Lanes, l: nat, data: Bytes)
    requires LosesNothing(a) && OneLane(acc, b, l) && AllFit(a, acc) && AllFit(a, b)
    ensures OneLane(Rounds(a, acc, data), Rounds(a, b, data), l)
    ensures AllFit(a, Rounds(a, acc, data)) && AllFit(a, Rounds(a, b, data))
    decreases |data|
  {
    var s := StripeOf(a);
    if |data| >= s {
      RoundKeepsLane(a, acc, b, l, data[..s]);
      RoundFits(a, acc, data[..s]);
      RoundFits(a, b, data[..s]);
      RoundsKeepLane(a, Round(a, acc, data[..s]), Round(a, b, data[..s]), l, data[s..]);
    }
  }

  /** Stripes that differ in the word of lane l. */
  lemma StripesApart(a: Algo, acc: Lanes, x: Bytes, y: Bytes, l: nat)
    requires LosesNothing(a) && |x| == |y| == StripeOf(a) && l < 4
    requires forall i :: 0 <= i < 4 ==>
               (x[a.width * i..a.width * i + a.width] != y[a.width * i..a.width * i + a.width] <==> i == l)
    ensures OneLane(Round(a, acc, x), Round(a, acc, y), l)
  {
    var w := a.width;
    assert ReadKeeps(a, x[w * l..w * l + w], y[w * l..w * l + w]);
    assert ReadKeeps(a, y[w * l..w * l + w], x[w * l..w * l + w]);
    assert RoundKeeps(a, acc[l], 0, ReadLane(a, x, l), ReadLane(a, y, l));
    forall i | 0 <= i < 4 && i != l ensures Round(a, acc, x)[i] == Round(a, acc, y)[i] {
      assert ReadLane(a, x, i) == ReadLane(a, y, i);
    }
  }

  /** Inputs that differ in the word of lane l of the stripe at m: the accumulators differ in that lane only, and
      what is left over is the same. */
  lemma StripeWordApart(a: Algo, acc: Lanes, x: Bytes, y: Bytes, m: nat, l: nat)
    requires LosesNothing(a) && AllFit(a, acc) && l < 4 && Left(a, m) == 0 && m + StripeOf(a) <= |x|
    requires OneApart(x, y, m + a.width * l, a.width)
    ensures OneLane(Rounds(a, acc, x), Rounds(a, acc, y), l) && Rest(a, x) == Rest(a, y)
    ensures AllFit(a, Rounds(a, acc, x)) && AllFit(a, Rounds(a, acc, y))
  {
    var s, p := StripeOf(a), m + a.width * l;
    SameAround(x, y, p, a.width, m, s);
    WordsOfStripe(x, y, p, a.width, m, s, l);
    InThree(x, m, s);
    InThree(y, m, s);
    StripeInside(a, acc, x[..m], x[m..m + s], y[m..m + s], x[m + s..], l);
  }

  lemma StripeInside(a: Algo, acc: Lanes, u: Bytes, d: Bytes, e: Bytes, v: Bytes, l: nat)
    requires LosesNothing(a) && AllFit(a, acc) && l < 4 && Left(a, |u|) == 0 && |d| == |e| == StripeOf(a)
    requires forall i :: 0 <= i < 4 ==>
               (d[a.width * i..a.width * i + a.width] != e[a.width * i..a.width * i + a.width] <==> i == l)
    ensures OneLane(Rounds(a, acc, u + (d + v)), Rounds(a, acc, u + (e + v)), l)
    ensures AllFit(a, Rounds(a, acc, u + (d + v))) && AllFit(a, Rounds(a, acc, u + (e + v)))
    ensures Rest(a, u + (d + v)) == Rest(a, u + (e + v))
  {
    var s, b := StripeOf(a), Rounds(a, acc, u);
    RestLength(a, u);
    assert Rest(a, u) == [];
    RoundsConcat(a, acc, u, d + v);
    RoundsConcat(a, acc, u, e + v);
    assert [] + (d + v) == d + v && [] + (e + v) == e + v;
    assert (d + v)[..s] == d && (d + v)[s..] == v && (e + v)[..s] == e && (e + v)[s..] == v;
    RoundsFit(a, acc, u);
    StripesApart(a, b, d, e, l);
    RoundFits(a, b, d);
    RoundFits(a, b, e);
    RoundsKeepLane(a, Round(a, b, d), Round(a, b, e), l, v);
  }

  lemma InThree(x: Bytes, m: nat, s: nat)
    requires m + s <= |x|
    ensures x == x[..m] + (x[m..m + s] + x[m + s..])
  {
  }

  lemma {:induction false} RoundsFit(a: Algo, acc: Lanes, data: Bytes)
    requires LosesNothing(a) && AllFit(a, acc)
    ensures AllFit(a, Rounds(a, acc, data))
    decreases |data|
  {
    var s := StripeOf(a);
    if |data| >= s {
      RoundFits(a, acc, data[..s]);
      RoundsFit(a, Round(a, acc, data[..s]), data[s..]);
    }
  }

  lemma SameAround(x: Bytes, y: Bytes, p: nat, n: nat, m: nat, s: nat)
    requires OneApart(x, y, p, n) && m <= p && p + n <= m + s <= |x|
    ensures x[..m] == y[..m] && x[m + s..] == y[m + s..]
  {
    assert x[..m] == x[..p][..m] && y[..m] == y[..p][..m];
    assert x[m + s..] == x[p + n..][m + s - p - n..] && y[m + s..] == y[p + n..][m + s - p - n..];
  }

  lemma WordsOfStripe(x: Bytes, y: Bytes, p: nat, w: nat, m: nat, s: nat, l: nat)
    requires OneApart(x, y, p, w) && l < 4 && s == 4 * w && p == m + w * l && m + s <= |x| && w > 0
    ensures forall i :: 0 <= i < 4 ==>
              (x[m..m + s][w * i..w * i + w] != y[m..m + s][w * i..w * i + w] <==> i == l)
  {
    forall i | 0 <= i < 4
      ensures x[m..m + s][w * i..w * i + w] != y[m..m + s][w * i..w * i + w] <==> i == l
    {
      OneWordOfStripe(x, y, p, w, m, s, m + w * i, i, l);
    }
  }

  lemma OneWordOfStripe(x: Bytes, y: Bytes, p: nat, w: nat, m: nat, s: nat, o: nat, i: nat, l: nat)
    requires OneApart(x, y, p, w) && i < 4 && l < 4 && s == 4 * w && p == m + w * l && o == m + w * i && m + s <= |x|
    ensures o + w <= m + s
    ensures x[m..m + s][o - m..o - m + w] != y[m..m + s][o - m..o - m + w] <==> i == l
  {
    assert i <= 3 ==> w * i <= w * 3;
    SliceOfSlice(x, m, m + s, o, w);
    SliceOfSlice(y, m, m + s, o, w);
    if i != l {
      assert if i < l then w * (i + 1) <= w * l else w * (l + 1) <= w * i;
      WordElsewhere(x, y, p, w, o);
    }
  }

  lemma WordElsewhere(x: Bytes, y: Bytes, p: nat, w: nat, o: nat)
    requires OneApart(x, y, p, w) && o + w <= |x| && (o + w <= p || p + w <= o)
    ensures x[o..o + w] == y[o..o + w]
  {
    if o + w <= p {
      SliceOfSlice(x, 0, p, o, w);
      SliceOfSlice(y, 0, p, o, w);
    } else {
      SliceOfSlice(x, p + w, |x|, o, w);
      SliceOfSlice(y, p + w, |x|, o, w);
    }
  }

  lemma SliceOfSlice(x: Bytes, lo: nat, hi: nat, o: nat, n: nat)
    requires lo <= o && o + n <= hi <= |x|
    ensures x[o..o + n] == x[lo..hi][o - lo..o - lo + n]
  {
    var part, left, right := x[lo..hi], x[o..o + n], x[lo..hi][o - lo..o - lo + n];
    forall k | 0 <= k < n ensures left[k] == right[k] {
      assert right[k] == part[o - lo + k];
    }
  }

  /** Inputs that agree on the whole stripes have the same accumulators. */
  lemma TailApart(a: Algo, acc: Lanes, x: Bytes, y: Bytes, p: nat, n: nat, m: nat)
    requires Legal(a) && OneApart(x, y, p, n) && m == |x| - Left(a, |x|) <= p
    ensures Rounds(a, acc, x) == Rounds(a, acc, y)
    ensures OneApart(Rest(a, x), Rest(a, y), p - m, n) && |Rest(a, x)| == |x| - m
  {
    RestLength(a, x);
    RestLength(a, y);
    ApartBehind(x, y, p, n, m);
    WholeOnly(a, acc, x, m);
    WholeOnly(a, acc, y, m);
  }

  lemma WholeOnly(a: Algo, acc: Lanes, x: Bytes, m: nat)
    requires Legal(a) && m <= |x| && Rest(a, x) == x[m..]
    ensures Rounds(a, acc, x) == Rounds(a, acc, x[..m])
  {
    RoundsOfWhole(a, acc, x, m);
  }

  lemma {:induction false} RoundsOfWhole(a: Algo, acc: Lanes, x: Bytes, m: nat)
    requires Legal(a) && m <= |x| && Rest(a, x) == x[m..]
    ensures Rounds(a, acc, x) == Rounds(a, acc, x[..m])
    decreases |x|
  {
    var s := StripeOf(a);
    if |x| >= s {
      assert |Rest(a, x[s..])| == |x| - m <= |x[s..]|;
      SplitAt(x, s, m);
      RoundsOfWhole(a, Round(a, acc, x[..s]), x[s..], m - s);
    }
  }

  lemma SplitAt(x: Bytes, s: nat, m: nat)
    requires s <= m <= |x|
    ensures x[s..][m - s..] == x[m..] && x[..m][..s] == x[..s] && x[..m][s..] == x[s..][..m - s]
  {
  }

  /** The hash from the accumulators' merge or the start of a short input. */
  function OpenedOf(a: Algo, seed: u64, x: Bytes): u64
    requires Legal(a)
  {
    if |x| >= StripeOf(a) then a.merge(Rounds(a, a.initAccs(seed), x)) else a.short(seed)
  }

  lemma HashInParts(a: Algo, seed: u64, x: Bytes)
    requires Legal(a)
    ensures HashOf(a, seed, x) == a.finish(a.addLength(OpenedOf(a, seed, x), |x|), Rest(a, x))
  {
  }

  lemma OpenedAlike(a: Algo, seed: u64, x: Bytes, y: Bytes, p: nat, n: nat)
    requires Legal(a) && OneApart(x, y, p, n) && |x| - Left(a, |x|) <= p
    ensures OpenedOf(a, seed, x) == OpenedOf(a, seed, y)
  {
    RestLength(a, x);
    TailApart(a, a.initAccs(seed), x, y, p, n, |x| - Left(a, |x|));
  }

  lemma RestApart(a: Algo, x: Bytes, y: Bytes, p: nat, n: nat, m: nat)
    requires Legal(a) && OneApart(x, y, p, n) && m == |x| - Left(a, |x|) <= p
    ensures OneApart(Rest(a, x), Rest(a, y), p - m, n) && |Rest(a, x)| == |x| - m
  {
    TailApart(a, [0, 0, 0, 0], x, y, p, n, m);
  }

  /** It is what is left over that must tell the inputs apart. */
  lemma RestDecides(a: Algo, seed: u64, x: Bytes, y: Bytes, p: nat, n: nat)
    requires Legal(a) && OneApart(x, y, p, n) && |x| - Left(a, |x|) <= p
    requires a.finish(a.addLength(OpenedOf(a, seed, x), |x|), Rest(a, x))
          != a.finish(a.addLength(OpenedOf(a, seed, x), |x|), Rest(a, y))
    ensures HashOf(a, seed, x) != HashOf(a, seed, y)
  {
    OpenedAlike(a, seed, x, y, p, n);
  }

  // ---- XXH32 as a whole ----

  lemma Xxh32LosesNothing()
    ensures LosesNothing(Xxh32())
  {
    var a := Xxh32();
    forall x: u64, y: u64, i: u64, j: u64 ensures RoundKeeps(a, x, y, i, j) {
      Round32Keeps(x, y, i, j);
    }
    forall b: Bytes, c: Bytes ensures ReadKeeps(a, b, c) {
      Read32Keeps(b, c);
    }
  }

  lemma Round32Keeps(x: u64, y: u64, i: u64, j: u64)
    ensures RoundKeeps(Xxh32(), x, y, i, j)
  {
    if x < TWO_32 && y < TWO_32 && Mix32(x, i) == Mix32(y, i) {
      Round32Injective(Cut(x), Cut(y), Cut(i), Cut(i));
      CutFits(x);
      CutFits(y);
    }
    if i < TWO_32 && j < TWO_32 && Mix32(x, i) == Mix32(x, j) {
      Round32Injective(Cut(x), Cut(x), Cut(i), Cut(j));
      CutFits(i);
      CutFits(j);
    }
  }

  lemma CutFits(x: nat)
    requires x < TWO_32
    ensures Cut(x) == x
  {
  }

  lemma Read32Keeps(b: Bytes, c: Bytes)
    ensures ReadKeeps(Xxh32(), b, c)
  {
    if |b| == |c| == 4 {
      FourBytes(b);
      FourBytes(c);
      if Read32(b) == Read32(c) {
        LittleEndianInjective(b, c);
      }
    }
  }

  lemma FourBytes(b: Bytes)
    requires |b| == 4 || |b| == 1
    ensures Cut(LittleEndian(b)) == LittleEndian(b)
  {
    if |b| == 4 {
      Pow2Of32();
      BoundOf(b, 32, TWO_32);
    } else {
      assert Pow2(8) == 256;
      BoundOf(b, 8, TWO_32);
    }
  }

  lemma BoundOf(b: Bytes, n: nat, t: nat)
    requires n == 8 * |b| && Pow2(n) <= t
    ensures LittleEndian(b) < t
  {
  }

  lemma Tail32Keeps()
    ensures TailKeeps(Tail32(), TWO_32)
  {
    forall h: u64, g: u64, b: Bytes, c: Bytes ensures MixKeeps(Tail32(), TWO_32, h, g, b, c) {
      Mix32UnitKeeps(h, g, b, c);
    }
    forall h: u64, g: u64 ensures LastKeeps(Tail32(), TWO_32, h, g) {
      if h < TWO_32 && g < TWO_32 && Last32(h) == Last32(g) {
        Avalanche32Injective(Cut(h), Cut(g));
        CutFits(h);
        CutFits(g);
      }
    }
  }

  lemma Mix32UnitKeeps(h: u64, g: u64, b: Bytes, c: Bytes)
    ensures MixKeeps(Tail32(), TWO_32, h, g, b, c)
  {
    if h < TWO_32 && g < TWO_32 && Mix32Unit(h, b) == Mix32Unit(g, b) {
      var w := Cut(LittleEndian(b));
      if |b| == 4 {
        MixWord32Injective(Cut(h), Cut(g), w, w);
      } else {
        MixByte32Injective(Cut(h), Cut(g), w, w);
      }
      CutFits(h);
      CutFits(g);
    }
    if |b| == |c| && (|b| == 4 || |b| == 1) && Mix32Unit(h, b) == Mix32Unit(h, c) {
      Mix32UnitOfBytes(h, b, c);
    }
  }

  lemma Mix32UnitOfBytes(h: u64, b: Bytes, c: Bytes)
    requires |b| == |c| && (|b| == 4 || |b| == 1) && Mix32Unit(h, b) == Mix32Unit(h, c)
    ensures b == c
  {
    FourBytes(b);
    FourBytes(c);
    if |b| == 4 {
      MixWord32Injective(Cut(h), Cut(h), Cut(LittleEndian(b)), Cut(LittleEndian(c)));
    } else {
      MixByte32Injective(Cut(h), Cut(h), Cut(LittleEndian(b)), Cut(LittleEndian(c)));
    }
    LittleEndianInjective(b, c);
  }

  /** The units XXH32 reads its input in: words of four bytes as far as they go, then single bytes. */
  predicate Unit32(len: nat, p: nat, n: nat) {
    (n == 4 && p % 4 == 0 && p + 4 <= len) || (n == 1 && len - len % 4 <= p < len)
  }

  lemma {:induction false} UnitOfTail32(len: nat, p: nat, n: nat)
    requires Unit32(len, p, n)
    ensures IsUnit(Tail32(), len, p, n)
    decreases len
  {
    var k := UnitOf(Tail32(), len);
    if p != 0 {
      UnitOfTail32(len - k, p - k, n);
    }
  }

  /** Two inputs of the same length that differ in exactly one word or one byte of the tail have different XXH32
      hashes, for every seed. */
  lemma Xxh32TellsUnitsApart(seed: u32, x: Bytes, y: Bytes, p: nat, n: nat)
    requires OneApart(x, y, p, n) && Unit32(|x|, p, n)
    ensures HashOf(Xxh32(), seed, x) != HashOf(Xxh32(), seed, y)
  {
    if |x| - |x| % 16 <= p {
      Xxh32Tails(seed, x, y, p, n);
    } else {
      Xxh32Stripes(seed, x, y, p);
    }
  }

  lemma FinishApart32(h: u64, x: Bytes, y: Bytes, p: nat, n: nat)
    requires h < TWO_32 && OneApart(x, y, p, n) && Unit32(|x|, p, n)
    ensures Finish32(h, x) != Finish32(h, y)
  {
    Tail32Keeps();
    UnitOfTail32(|x|, p, n);
    FinalizedApart(Tail32(), TWO_32, h, x, y, p, n);
  }

  lemma Xxh32Tails(seed: u32, x: Bytes, y: Bytes, p: nat, n: nat)
    requires OneApart(x, y, p, n) && Unit32(|x|, p, n) && |x| - |x| % 16 <= p
    ensures HashOf(Xxh32(), seed, x) != HashOf(Xxh32(), seed, y)
  {
    var a, m := Xxh32(), |x| - |x| % 16;
    Left32(|x|);
    RestApart(a, x, y, p, n, m);
    UnitBehind(|x|, p, n, m);
    FinishApart32(AddLength32(OpenedOf(a, seed, x), |x|), Rest(a, x), Rest(a, y), p - m, n);
    RestDecides(a, seed, x, y, p, n);
  }

  lemma Left32(len: nat)
    ensures Left(Xxh32(), len) == len % 16 && Legal(Xxh32())
  {
  }

  lemma UnitBehind(len: nat, p: nat, n: nat, whole: nat)
    requires Unit32(len, p, n) && whole == len - len % 16 <= p
    ensures Unit32(len - whole, p - whole, n)
  {
  }

  lemma Xxh32Stripes(seed: u32, x: Bytes, y: Bytes, p: nat)
    requires OneApart(x, y, p, 4) && p % 4 == 0 && p < |x| - |x| % 16
    ensures HashOf(Xxh32(), seed, x) != HashOf(Xxh32(), seed, y)
  {
    var a, m, l := Xxh32(), p - p % 16, p % 16 / 4;
    Xxh32LosesNothing();
    Xxh32Accs(seed);
    StripeWordApart(a, Init32(seed), x, y, m, l);
    LanesSmall(Rounds(a, Init32(seed), x));
    LanesSmall(Rounds(a, Init32(seed), y));
    Merge32Injective(Rounds(a, Init32(seed), x), Rounds(a, Init32(seed), y), l);
    HashInParts(Xxh32(), seed, x);
    HashInParts(Xxh32(), seed, y);
    OpenedApart(OpenedOf(Xxh32(), seed, x), OpenedOf(Xxh32(), seed, y), |x|, Rest(a, x));
  }

  lemma Xxh32Accs(seed: u32)
    ensures AllFit(Xxh32(), Init32(seed))
  {
  }

  lemma LanesSmall(acc: Lanes)
    requires AllFit(Xxh32(), acc)
    ensures forall i :: 0 <= i < 4 ==> acc[i] < TWO_32
  {
    assert forall i :: 0 <= i < 4 ==> Fits(Xxh32(), acc[i]);
  }

  lemma OpenedApart(b: u64, c: u64, len: nat, tail: Bytes)
    requires b != c && b < TWO_32 && c < TWO_32
    ensures Finish32(AddLength32(b, len), tail) != Finish32(AddLength32(c, len), tail)
  {
    if Finish32(AddLength32(b, len), tail) == Finish32(AddLength32(c, len), tail) {
      Tail32Keeps();
      FinalizedInjective(Tail32(), TWO_32, AddLength32(b, len), AddLength32(c, len), tail);
      SumCancels(b, c, len, TWO_32);
    }
  }

  lemma Merge32Injective(acc: Lanes, b: Lanes, l: nat)
    requires OneLane(acc, b, l) && (forall i :: 0 <= i < 4 ==> acc[i] < TWO_32 && b[i] < TWO_32)
    ensures MergeAccs32(acc) != MergeAccs32(b)
  {
    LaneRotated(acc[0], b[0], 1);
    LaneRotated(acc[1], b[1], 7);
    LaneRotated(acc[2], b[2], 12);
    LaneRotated(acc[3], b[3], 18);
    SumApart(Rotl32(Cut(acc[0]), 1), Rotl32(Cut(acc[1]), 7), Rotl32(Cut(acc[2]), 12), Rotl32(Cut(acc[3]), 18),
             Rotl32(Cut(b[0]), 1), Rotl32(Cut(b[1]), 7), Rotl32(Cut(b[2]), 12), Rotl32(Cut(b[3]), 18), l);
  }

  lemma LaneRotated(x: u64, y: u64, r: nat)
    requires x < TWO_32 && y < TWO_32 && r <= 32
    ensures Rotl32(Cut(x), r) == Rotl32(Cut(y), r) <==> x == y
  {
    CutFits(x);
    CutFits(y);
    if Rotl32(Cut(x), r) == Rotl32(Cut(y), r) {
      Rotl32Injective(Cut(x), Cut(y), r);
    }
  }

  lemma SumApart(a: u32, b: u32, c: u32, d: u32, e: u32, f: u32, g: u32, h: u32, l: nat)
    requires l < 4 && (a != e <==> l == 0) && (b != f <==> l == 1) && (c != g <==> l == 2) && (d != h <==> l == 3)
    ensures Sum32(a, b, c, d) != Sum32(e, f, g, h)
  {
    if Sum32(a, b, c, d) == Sum32(e, f, g, h) {
      SumCancels(if l == 0 then a else if l == 1 then b else if l == 2 then c else d,
                 if l == 0 then e else if l == 1 then f else if l == 2 then g else h,
                 if l == 0 then b + c + d else if l == 1 then a + c + d else if l == 2 then a + b + d else a + b + c, TWO_32);
    }
  }
}
