/** Decimal keys: what snprintf and itoa_in_buffer print (hashmap.h, hashlist.h). */
module Decimals {
  import opened Widths

  const KEY_LEN: nat := 10

  function Digit(d: nat): (c: char)
    requires d < 10
    ensures '0' <= c <= '9'
  {
    '0' + d as char
  }

  function Decimal(x: nat): (s: string)
    ensures s != []
  {
    if x < 10 then [Digit(x)] else Decimal(x / 10) + [Digit(x % 10)]
  }

  function Pow10(k: nat): (p: nat)
    ensures p > 0
  {
    if k == 0 then 1 else 10 * Pow10(k - 1)
  }

  /** The number a digit string stands for. */
  function Numeral(s: string): nat
    requires forall i :: 0 <= i < |s| ==> '0' <= s[i] <= '9'
  {
    if s == [] then 0 else 10 * Numeral(s[..|s| - 1]) + (s[|s| - 1] - '0') as nat
  }

  lemma {:induction false} NumeralOfDecimal(x: nat)
    ensures forall i :: 0 <= i < |Decimal(x)| ==> '0' <= Decimal(x)[i] <= '9'
    ensures Numeral(Decimal(x)) == x
  {
    if x < 10 {
      assert Decimal(x)[..0] == [];
    } else {
      NumeralOfDecimal(x / 10);
      assert Decimal(x)[..|Decimal(x)| - 1] == Decimal(x / 10);
    }
  }

  lemma DecimalInjective(x: nat, y: nat)
    requires Decimal(x) == Decimal(y)
    ensures x == y
  {
    NumeralOfDecimal(x);
    NumeralOfDecimal(y);
  }

  lemma {:induction false} DecimalLength(x: nat, k: nat)
    requires k > 0
    ensures |Decimal(x)| <= k <==> x < Pow10(k)
  {
    if x >= 10 {
      if k > 1 {
        DecimalLength(x / 10, k - 1);
      }
    } else if k > 1 {
      DecimalLength(x, k - 1);
    }
  }

  /** The text of "%i" for a 32-bit length: values from 2^31 on are printed as negative ints. */
  function SignedText(x: nat): string
    requires x < TWO_32
  {
    if x < TWO_31 then Decimal(x) else "-" + Decimal(TWO_32 - x)
  }

  /** What snprintf leaves in a buffer of HASHLIST_KEY_LEN (10 + 1) bytes. */
  function ListKey(x: nat): string
    requires x < TWO_32
  {
    var s := SignedText(x);
    if |s| <= KEY_LEN then s else s[..KEY_LEN]
  }

  lemma ListKeyIsDecimal(x: nat)
    requires x < TWO_31
    ensures ListKey(x) == Decimal(x)
  {
    DecimalLength(x, 10);
    assert Pow10(10) == 100 * Pow10(8) == 10_000 * Pow10(6) == 1_000_000 * Pow10(4) == 100_000_000 * Pow10(2);
  }

  /** The keys of the first 2^31 + 1 list positions differ from one another. */
  lemma ListKeysDiffer(i: nat, j: nat)
    requires i < j <= TWO_31
    ensures ListKey(i) != ListKey(j)
  {
    ListKeyIsDecimal(i);
    NumeralOfDecimal(i);
    if j < TWO_31 {
      ListKeyIsDecimal(j);
      NumeralOfDecimal(j);
    } else {
      assert ListKey(j)[0] == '-';
    }
  }

  /** The next one does not: "-2147483648" and "-2147483647" are cut to the same ten characters. */
  lemma ListKeysCollide()
    ensures ListKey(TWO_31) == ListKey(TWO_31 + 1)
  {
    var d := Decimal(214748364);
    assert Decimal(TWO_31) == d + ['8'] && Decimal(TWO_31 - 1) == d + ['7'];
    DecimalLength(214748364, 9);
    DecimalLength(214748364, 8);
    assert Pow10(9) == 1000 * Pow10(6) == 1_000_000 * Pow10(3);
    assert Pow10(8) == 100 * Pow10(6);
    assert |d| == 9;
    assert SignedText(TWO_31)[..10] == "-" + d == SignedText(TWO_31 + 1)[..10];
  }

  /** itoa_in_buffer: the digits are written backwards from the end of an 11-byte buffer; the result
      points at the first of them, and the terminating byte is left alone. */
  method ItoaInBuffer(k: array<char>, key0: nat) returns (kp: nat)
    requires k.Length == KEY_LEN + 1 && key0 < TWO_32
    modifies k
    ensures kp < KEY_LEN && k[kp..KEY_LEN] == Decimal(key0) && k[KEY_LEN] == old(k[KEY_LEN])
  {
    var key: nat := key0;
    kp := KEY_LEN;
    assert Pow10(10) == 100 * Pow10(8) == 10_000 * Pow10(6) == 1_000_000 * Pow10(4) == 100_000_000 * Pow10(2);
    while key != 0 || kp == KEY_LEN
      invariant kp <= KEY_LEN && key < Pow10(kp)
      invariant k[KEY_LEN] == old(k[KEY_LEN])
      invariant if key != 0 || kp == KEY_LEN then Decimal(key) + k[kp..KEY_LEN] == Decimal(key0)
                else k[kp..KEY_LEN] == Decimal(key0)
      decreases kp
    {
      ghost var tail := k[kp..KEY_LEN];
      var i := key % 10;
      key := key / 10;
      kp := kp - 1;
      k[kp] := '0' + i as char;
      assert k[kp..KEY_LEN] == [Digit(i)] + tail;
      if key != 0 {
        assert Decimal(key) + ([Digit(i)] + tail) == Decimal(key) + [Digit(i)] + tail;
      }
    }
  }
}
