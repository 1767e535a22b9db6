/** What an ASCII85 text is, apart from how the loops make it: section 7.4.3 of ISO 32000-1, group by group. */
module Ascii85Format {
  import opened Widths
  import opened Words
  import opened Ascii85

  /** Five digits to the base 85, the first one highest. */
  function Base85(d0: int, d1: int, d2: int, d3: int, d4: int): int {
    d0 * 52200625 + d1 * 614125 + d2 * 7225 + d3 * 85 + d4
  }

  /** The number that the five characters of a group spell. */
  function Spelt(g: Text): int
    requires |g| == 5
  {
    Base85(g[0] as int - 33, g[1] as int - 33, g[2] as int - 33, g[3] as int - 33, g[4] as int - 33)
  }

  /** The number of four bytes, the first one highest. */
  function Number(f: Bytes): nat
    requires |f| == 4
  {
    f[0] as int * 0x100_0000 + f[1] as int * 0x1_0000 + f[2] as int * 0x100 + f[3] as int
  }

  lemma NumberOf(f: Bytes)
    requires |f| == 4
    ensures BigEndian(f) == Number(f)
  {
    assert f[..3][..2] == f[..2] && f[..2][..1] == f[..1] && f[..1][..0] == [];
    assert BigEndian(f[..1]) == f[0] as int;
    assert BigEndian(f[..2]) == f[0] as int * 0x100 + f[1] as int;
    assert BigEndian(f[..3]) == f[0] as int * 0x1_0000 + f[1] as int * 0x100 + f[2] as int;
  }

  lemma DigitAt(x: nat, k: nat)
    requires k > 0
    ensures DigitsFrom(x, k) == DigitsFrom(x / 85, k - 1) + [Letter(x % 85)]
    ensures DigitsFrom(x, k)[k - 1] as int - 33 == x % 85
  {
  }

  /** Letters split off from the end spell the value. */
  lemma LettersSpell(x: nat, x1: nat, x2: nat, x3: nat, x4: nat)
    requires x1 == x / 85 && x2 == x1 / 85 && x3 == x2 / 85 && x4 == x3 / 85 && x4 < 85
    ensures Spelt(DigitsFrom(x, 5)) == x
  {
    var g := DigitsFrom(x, 5);
    var k: nat := 5;
    DigitAt(x, k);
    DigitAt(x1, k - 1);
    DigitAt(x2, k - 2);
    DigitAt(x3, k - 3);
    DigitAt(x4, k - 4);
    assert g[4] as int - 33 == x % 85 && g[3] as int - 33 == x1 % 85 && g[2] as int - 33 == x2 % 85;
    assert g[1] as int - 33 == x3 % 85 && g[0] as int - 33 == x4 % 85;
  }

  lemma GroupSpells(f: Bytes)
    requires |f| == 4
    ensures Spelt(GroupOf(f)) == Number(f)
  {
    var x := BigEndian(f);
    NumberOf(f);
    LettersSpell(x, x / 85, x / 85 / 85, x / 85 / 85 / 85, x / 85 / 85 / 85 / 85);
  }

  // ---- the text of the encoder ----

  lemma NothingIsNothing()
    ensures Encoded([]) == []
  {
  }

  /** A whole group of zeroes with another whole group's worth of bytes behind it is a single 'z'. */
  lemma ZeroGroup(b: Bytes)
    requires |b| >= 8 && b[..4] == [0, 0, 0, 0]
    ensures Encoded(b) == ['z'] + Encoded(b[4..])
  {
    EncodedHead(b);
    NumberOf(b[..4]);
  }

  /** Any other whole group is five letters, which spell its bytes to the base 85. */
  lemma LetterGroup(b: Bytes) returns (g: Text)
    requires |b| >= 4 && (b[..4] != [0, 0, 0, 0] || |b| < 8)
    ensures |g| == 5 && Letters(g) && Spelt(g) == Number(b[..4])
    ensures Encoded(b) == g + Encoded(b[4..])
  {
    g := GroupOf(b[..4]);
    EncodedHead(b);
    GroupSpells(b[..4]);
    if BigEndian(b[..4]) == 0 {
      ZeroOnly(b[..4]);
    }
  }

  /** One to three bytes at the end are one letter more than bytes: the first letters of the group they make with
      zeroes behind them. */
  lemma LastGroup(b: Bytes) returns (f: Bytes, g: Text)
    requires 0 < |b| < 4
    ensures |f| == 4 && f[..|b|] == b && (forall i :: |b| <= i < 4 ==> f[i] == 0)
    ensures |g| == 5 && Letters(g) && Spelt(g) == Number(f)
    ensures Encoded(b) == g[..|b| + 1]
  {
    f := First(b);
    g := GroupOf(f);
    GroupSpells(f);
    assert Full(b) == g + [] == g;
  }

  /** The whole groups that become a 'z'. */
  function ZeroGroups(b: Bytes): nat
    decreases |b|
  {
    if |b| < 8 then 0 else (if b[..4] == [0, 0, 0, 0] then 1 else 0) + ZeroGroups(b[4..])
  }

  /** The length of the text. */
  lemma {:induction false} EncodedLength(b: Bytes)
    ensures |Encoded(b)| == 5 * (|b| / 4) - 4 * ZeroGroups(b) + (if |b| % 4 == 0 then 0 else |b| % 4 + 1)
    decreases |b|
  {
    if |b| >= 4 {
      EncodedLength(b[4..]);
      if |b| >= 8 && b[..4] == [0, 0, 0, 0] {
        ZeroGroup(b);
      } else {
        var g := LetterGroup(b);
      }
    } else if b != [] {
      var f, g := LastGroup(b);
    }
  }

  // ---- what the decoder makes of five characters ----

  lemma ValueStepOf(g: Text, x: int)
    requires g != [] && ValueOf(g[..|g| - 1]) == x % TWO_32
    ensures ValueOf(g) == (x * 85 + (g[|g| - 1] as int - 33)) % TWO_32
  {
    var y := x % TWO_32;
    var q := x / TWO_32;
    assert x == q * TWO_32 + y;
    assert x * 85 + Digit(g[|g| - 1]) == y * 85 + Digit(g[|g| - 1]) + q * 85 * TWO_32;
    WholeTurns(y * 85 + Digit(g[|g| - 1]), q * 85);
  }

  lemma WholeTurns(x: int, k: int)
    ensures (x + k * TWO_32) % TWO_32 == x % TWO_32
  {
  }

  /** Any five characters, letters or not, are read as digits to the base 85, modulo 2^32. */
  lemma FiveCharacters(g: Text)
    requires |g| == 5
    ensures ValueOf(g) == Spelt(g) % 0x1_0000_0000
  {
    assert g[..4][..3] == g[..3] && g[..3][..2] == g[..2] && g[..2][..1] == g[..1] && g[..1][..0] == [];
    var d0, d1, d2, d3, d4 := g[0] as int - 33, g[1] as int - 33, g[2] as int - 33, g[3] as int - 33, g[4] as int - 33;
    ValueStepOf(g[..1], 0);
    ValueStepOf(g[..2], d0);
    ValueStepOf(g[..3], d0 * 85 + d1);
    ValueStepOf(g[..4], (d0 * 85 + d1) * 85 + d2);
    ValueStepOf(g, ((d0 * 85 + d1) * 85 + d2) * 85 + d3);
    assert (((d0 * 85 + d1) * 85 + d2) * 85 + d3) * 85 + d4 == Base85(d0, d1, d2, d3, d4);
  }

  /** They stand for the four bytes of that number. */
  lemma FourBytesOf(g: Text)
    requires |g| == 5
    ensures |BytesOf(g)| == 4 && Number(BytesOf(g)) == Spelt(g) % 0x1_0000_0000
  {
    FiveCharacters(g);
    NumberOf(BytesOf(g));
    ValueOfBytes(ValueOf(g));
  }

  lemma ValueOfBytes(x: nat)
    requires x < TWO_32
    ensures BigEndian(BytesFrom(x, 4)) == x
  {
    BytesThere(x, 4);
    Powers();
  }

  lemma {:induction false} BytesThere(x: nat, k: nat)
    requires x < Pow(256, k)
    ensures BigEndian(BytesFrom(x, k)) == x
  {
    if k > 0 {
      DivideShifted(0, x, Pow(256, k - 1));
      BytesThere(x / 256, k - 1);
      var b := BytesFrom(x, k);
      assert b[..k - 1] == BytesFrom(x / 256, k - 1) && b[k - 1] == x % 256;
    }
  }

  /** What is decoded is the bytes of the groups, and zeroes where the buffer is larger. */
  lemma DecodedInFull(s: Text, i: nat)
    requires i < |Decoded(s)|
    ensures var d := DecodedGroups(Padded(s)); Decoded(s)[i] == if i < |d| then d[i] else 0
  {
    WritesFit(s);
  }

  /** A group that the text breaks off in is read on with the terminator. */
  lemma BrokenGroup(t: Text, i: nat)
    requires |t| < 5 && i < 5
    ensures GroupHead(t)[i] == if i < |t| then t[i] else 0 as char
  {
  }
}
