/** Numbers as bits: what shifts, rotations, exclusive or and odd factors do, and that they lose nothing. */
module Bits {
  import opened Widths
  import opened Words

  function Bit(x: nat, i: nat): nat {
    Down(x, i) % 2
  }

  // ---- shifts ----

  lemma {:induction false} DownDown(x: nat, j: nat, k: nat)
    ensures Down(Down(x, j), k) == Down(x, j + k)
  {
    if j > 0 {
      DownDown(x / 2, j - 1, k);
    }
  }

  lemma {:induction false} UpIsProduct(x: nat, k: nat)
    ensures Up(x, k) == x * Pow2(k)
  {
    if k > 0 {
      UpIsProduct(x, k - 1);
      Doubled(x, Pow2(k - 1));
    }
  }

  lemma Doubled(x: nat, p: nat)
    ensures x * (2 * p) == 2 * (x * p)
  {
  }

  /** x is Down(x, k) times 2^k and something less. */
  lemma {:induction false} DownIsQuotient(x: nat, k: nat)
    ensures 0 <= x - Down(x, k) * Pow2(k) < Pow2(k)
  {
    if k > 0 {
      DownIsQuotient(x / 2, k - 1);
      Doubled(Down(x / 2, k - 1), Pow2(k - 1));
    }
  }

  lemma {:induction false} NoHighBits(x: nat, n: nat, i: nat)
    requires x < Pow2(n) && n <= i
    ensures Down(x, i) == 0
  {
    if i > 0 {
      if n == 0 {
        NoHighBits(x / 2, 0, i - 1);
      } else {
        NoHighBits(x / 2, n - 1, i - 1);
      }
    }
  }

  /** Bit i of a number shifted down by k is its bit i + k. */
  lemma BitOfDown(x: nat, k: nat, i: nat)
    ensures Bit(Down(x, k), i) == Bit(x, k + i)
  {
    DownDown(x, k, i);
  }

  /** Bits determine the number. */
  lemma {:induction false} BitsDetermine(x: nat, y: nat, n: nat)
    requires x < Pow2(n) && y < Pow2(n) && forall i: nat :: i < n ==> Bit(x, i) == Bit(y, i)
    ensures x == y
  {
    if n > 0 {
      assert Bit(x, 0) == Bit(y, 0);
      forall i: nat | i < n - 1 ensures Bit(x / 2, i) == Bit(y / 2, i) {
        assert Bit(x, i + 1) == Bit(y, i + 1);
      }
      BitsDetermine(x / 2, y / 2, n - 1);
    }
  }

  // ---- exclusive or ----

  /** Bit i of an exclusive or is set exactly if the two bits differ. */
  lemma {:induction false} BitOfXor(x: nat, y: nat, n: nat, i: nat)
    requires i < n
    ensures Bit(XorBits(x, y, n), i) == if Bit(x, i) == Bit(y, i) then 0 else 1
    decreases i
  {
    XorHalves(x, y, n);
    if i > 0 {
      BitOfXor(x / 2, y / 2, n - 1, i - 1);
    }
  }

  lemma XorHalves(x: nat, y: nat, n: nat)
    requires n > 0
    ensures XorBits(x, y, n) / 2 == XorBits(x / 2, y / 2, n - 1)
    ensures XorBits(x, y, n) % 2 == if x % 2 == y % 2 then 0 else 1
  {
    Parity(x, y);
    HalfOf(XorBits(x / 2, y / 2, n - 1), (x + y) % 2);
  }

  lemma Parity(x: nat, y: nat)
    ensures (x + y) % 2 == if x % 2 == y % 2 then 0 else 1
  {
  }

  lemma HalfOf(h: nat, b: nat)
    requires b < 2
    ensures (2 * h + b) / 2 == h && (2 * h + b) % 2 == b
  {
  }

  /** Exclusive or with one number loses nothing of the other. */
  lemma XorCancels(x: nat, y: nat, z: nat, n: nat)
    requires x < Pow2(n) && y < Pow2(n)
    requires XorBits(x, z, n) == XorBits(y, z, n) || XorBits(z, x, n) == XorBits(z, y, n)
    ensures x == y
  {
    forall i: nat | i < n ensures Bit(x, i) == Bit(y, i) {
      BitOfXor(x, z, n, i);
      BitOfXor(y, z, n, i);
      BitOfXor(z, x, n, i);
      BitOfXor(z, y, n, i);
      TwoValues(x, i);
      TwoValues(y, i);
      TwoValues(z, i);
    }
    BitsDetermine(x, y, n);
  }

  lemma TwoValues(x: nat, i: nat)
    ensures Bit(x, i) == 0 || Bit(x, i) == 1
  {
  }

  /** x ^ (x >> k) loses nothing: from the top, every bit is known once those above it are. */
  lemma XorShiftInjective(x: nat, y: nat, k: nat, n: nat)
    requires k > 0 && x < Pow2(n) && y < Pow2(n)
    requires XorBits(x, Down(x, k), n) == XorBits(y, Down(y, k), n)
    ensures x == y
  {
    forall i: nat | i < n ensures Bit(x, i) == Bit(y, i) {
      FromTheTop(x, y, k, n, i);
    }
    BitsDetermine(x, y, n);
  }

  lemma {:induction false} FromTheTop(x: nat, y: nat, k: nat, n: nat, i: nat)
    requires k > 0 && x < Pow2(n) && y < Pow2(n) && i < n
    requires XorBits(x, Down(x, k), n) == XorBits(y, Down(y, k), n)
    ensures Bit(x, i) == Bit(y, i)
    decreases n - i
  {
    if i + k < n {
      FromTheTop(x, y, k, n, i + k);
    } else {
      NoHighBits(x, n, k + i);
      NoHighBits(y, n, k + i);
    }
    BitOfXor(x, Down(x, k), n, i);
    BitOfXor(y, Down(y, k), n, i);
    BitOfDown(x, k, i);
    BitOfDown(y, k, i);
    TwoValues(x, i);
    TwoValues(y, i);
    TwoValues(x, k + i);
  }

  // ---- arithmetic modulo t ----

  /** A factor with an inverse loses nothing. */
  lemma FactorCancels(x: nat, y: nat, p: nat, q: nat, m: nat, t: nat)
    requires p * q == m * t + 1 && x < t && y < t && x * p % t == y * p % t
    ensures x == y
  {
    Unfactored(x, p, q, m, t);
    Unfactored(y, p, q, m, t);
  }

  lemma Unfactored(x: nat, p: nat, q: nat, m: nat, t: nat)
    requires p * q == m * t + 1 && x < t
    ensures x * p % t * q % t == x
  {
    var a, r := x * p / t, x * p % t;
    assert x * p == a * t + r;
    assert r * q == x * (p * q) - a * t * q;
    assert x * (p * q) == x * m * t + x;
    assert r * q == (x * m - a * q) * t + x;
    RestOf(r * q, x * m - a * q, x, t);
  }

  lemma RestOf(n: nat, q: int, r: nat, t: nat)
    requires n == q * t + r && r < t
    ensures n % t == r
  {
    var k := n / t;
    assert n == k * t + n % t;
    assert k < q ==> (k + 1) * t <= q * t;
    assert k > q ==> (q + 1) * t <= k * t;
  }

  /** Adding the same number loses nothing. */
  lemma SumCancels(x: nat, y: nat, c: nat, t: nat)
    requires x < t && y < t && (x + c) % t == (y + c) % t
    ensures x == y
  {
    if x <= y {
      SumCancelsUp(x, y, c, t);
    } else {
      SumCancelsUp(y, x, c, t);
    }
  }

  lemma SumCancelsUp(x: nat, y: nat, c: nat, t: nat)
    requires x <= y < t && (x + c) % t == (y + c) % t
    ensures x == y
  {
    var a, b, r := (x + c) / t, (y + c) / t, (x + c) % t;
    assert x + c == a * t + r && y + c == b * t + r;
    assert b * t - a * t == (b - a) * t;
    NoMultiple(b - a, t, y - x);
  }

  lemma NoMultiple(k: int, t: nat, n: nat)
    requires n == k * t && n < t
    ensures n == 0
  {
    assert k >= 1 ==> k * t >= t;
  }

  // ---- rotation ----

  /** A number h * q + l below p * q, rotated: its two parts change places. */
  lemma RotationOf(h: nat, l: nat, p: nat, q: nat)
    requires h < p && l < q
    ensures ((h * q + l) * p + h) % (p * q) == l * p + h
  {
    Regrouped(h, l, p, q);
    BelowProduct(l, h, p, q);
    RestOf((h * q + l) * p + h, h, l * p + h, p * q);
  }

  lemma Regrouped(h: nat, l: nat, p: nat, q: nat)
    ensures (h * q + l) * p == h * (p * q) + l * p
  {
    assert (h * q + l) * p == h * q * p + l * p;
    assert h * q * p == h * (p * q);
  }

  lemma BelowProduct(l: nat, h: nat, p: nat, q: nat)
    requires l < q && h < p
    ensures l * p + h < p * q
  {
    assert (l + 1) * p <= q * p;
    assert (l + 1) * p == l * p + p;
  }

  lemma QuotientBelow(h: nat, l: nat, p: nat, q: nat)
    requires h * q + l < p * q
    ensures h < p
  {
    assert h >= p ==> h * q >= p * q;
  }

  lemma Digits(a: nat, b: nat, c: nat, d: nat, p: nat)
    requires b < p && d < p && a * p + b == c * p + d
    ensures a == c && b == d
  {
    assert a < c ==> (a + 1) * p <= c * p;
    assert a > c ==> (c + 1) * p <= a * p;
  }

  /** A rotation of n bits by r, and that it loses nothing. */
  lemma Rotation(x: nat, r: nat, n: nat)
    requires r <= n && x < Pow2(n)
    ensures var h := Down(x, n - r);
            var l := x - h * Pow2(n - r);
            && 0 <= l < Pow2(n - r) && h < Pow2(r) && Pow2(r) * Pow2(n - r) == Pow2(n)
            && (Up(x, r) + h) % Pow2(n) == l * Pow2(r) + h
  {
    Pow2Sum(r, n - r);
    UpIsProduct(x, r);
    DownIsQuotient(x, n - r);
    PartsRotated(x, Down(x, n - r), Pow2(r), Pow2(n - r), Up(x, r));
  }

  lemma PartsRotated(x: nat, h: nat, p: nat, q: nat, up: nat)
    requires up == x * p && 0 <= x - h * q < q && x < p * q
    ensures h < p && (up + h) % (p * q) == (x - h * q) * p + h
  {
    QuotientBelow(h, x - h * q, p, q);
    RotationOf(h, x - h * q, p, q);
  }

  lemma RotationInjective(x: nat, y: nat, r: nat, n: nat)
    requires r <= n && x < Pow2(n) && y < Pow2(n)
    requires (Up(x, r) + Down(x, n - r)) % Pow2(n) == (Up(y, r) + Down(y, n - r)) % Pow2(n)
    ensures x == y
  {
    Rotation(x, r, n);
    Rotation(y, r, n);
    SameParts(x, Down(x, n - r), y, Down(y, n - r), Pow2(r), Pow2(n - r));
  }

  lemma SameParts(x: nat, h: nat, y: nat, g: nat, p: nat, q: nat)
    requires h < p && g < p && h * q <= x && g * q <= y
    requires (x - h * q) * p + h == (y - g * q) * p + g
    ensures x == y
  {
    Digits(x - h * q, h, y - g * q, g, p);
  }
}
