/** dse_ascii85_encode and dse_ascii85_decode as they walk their buffers. */
module Ascii85Loops {
  import opened Widths
  import opened Words
  import opened Ascii85

  /** strlen. */
  function StrLen(a: seq<char>): (n: nat)
    ensures n <= |a|
  {
    if a == [] || a[0] == '\0' then 0 else 1 + StrLen(a[1..])
  }

  lemma {:induction false} StrLenAt(a: seq<char>, n: nat)
    requires n <= |a| && (forall i :: 0 <= i < n ==> a[i] != '\0') && (n < |a| ==> a[n] == '\0')
    ensures StrLen(a) == n
    decreases n
  {
    if n > 0 {
      StrLenAt(a[1..], n - 1);
    }
  }

  /** The first n characters are the text, the others NUL. */
  ghost predicate Holds(a: array<char>, text: Text)
    reads a
  {
    && |text| < a.Length
    && a[..|text|] == text && '\0' !in text
    && forall i :: |text| <= i < a.Length ==> a[i] == '\0'
  }

  /** A byte shifted to its place below the ones before it. */
  lemma ChunkGrows(b: Bytes, c: u8)
    requires |b| < 4
    ensures var c': int := c; BigEndian(First(b + [c])) == BigEndian(First(b)) + c' * Pow(256, 3 - |b|)
  {
    assert (b + [c])[..|b|] == b;
    ShiftIn(b, c, 3 - |b|);
    FirstValue(b);
    FirstValue(b + [c]);
  }

  lemma ShiftIn(b: Bytes, c: u8, k: nat)
    requires (b + [c])[..|b|] == b
    ensures var c': int := c;
            BigEndian(b + [c]) * Pow(256, k) == BigEndian(b) * Pow(256, k + 1) + c' * Pow(256, k)
  {
    var c': int := c;
    assert BigEndian(b + [c]) == BigEndian(b) * 256 + c';
    Distribute(BigEndian(b), c', Pow(256, k));
  }

  lemma Distribute(x: nat, c: nat, p: nat)
    ensures (x * 256 + c) * p == x * (256 * p) + c * p
  {
  }

  lemma FirstValue(b: Bytes)
    requires |b| <= 4
    ensures BigEndian(First(b)) == BigEndian(b) * Pow(256, 4 - |b|)
  {
    TrailingZeroes(b, 4 - |b|);
    assert First(b) == b + seq(4 - |b|, i => 0);
  }

  /** The inner loop of the encoder that gathers up to four bytes. */
  method TakeChunk(source: Bytes) returns (x: nat, n: nat)
    requires source != []
    ensures n == (if |source| < 4 then |source| else 4) && source[n..] == Behind(source)
    ensures x == BigEndian(First(source)) < TWO_32
  {
    x, n := 0, 0;
    FirstValue([]);
    var chunk := 3;
    while chunk >= 0
      invariant chunk == 3 - n && n <= 4 && n <= |source| && (n < |source| || chunk == -1)
      invariant x == BigEndian(First(source[..n]))
    {
      var c: int := source[n];
      ChunkGrows(source[..n], source[n]);
      assert source[..n] + [source[n]] == source[..n + 1];
      x := x + c * Pow(256, chunk);
      n := n + 1;
      chunk := chunk - 1;
      if n == |source| {
        break;
      }
    }
    assert First(source[..n]) == First(source);
    FourByteBound(First(source));
  }

  lemma LastDigit(x: nat, k: nat)
    ensures DigitsFrom(x, k + 1)[..k] == DigitsFrom(x / 85, k) && DigitsFrom(x, k + 1)[k] == Letter(x % 85)
  {
  }

  /** The inner loop of the encoder: the five digits of a group, from the last to the first. */
  method PutGroup(en: array<char>, at: nat, x0: nat)
    requires at + 5 <= en.Length
    modifies en
    ensures en[at..at + 5] == DigitsFrom(x0, 5)
    ensures forall i :: 0 <= i < en.Length && !(at <= i < at + 5) ==> en[i] == old(en[i])
  {
    PutDigits(en, at, x0, DigitsFrom(x0, 5));
  }

  lemma NextDigit(g: Text, x: nat, n: nat)
    requires 0 < n <= |g| && g[..n] == DigitsFrom(x, n)
    ensures g[n - 1] == Letter(x % 85) && g[..n - 1] == DigitsFrom(x / 85, n - 1)
  {
    LastDigit(x, n - 1);
    assert g[n - 1] == g[..n][n - 1] && g[..n - 1] == g[..n][..n - 1];
  }

  method PutDigits(en: array<char>, at: nat, x0: nat, ghost g: Text)
    requires at + 5 <= en.Length && |g| == 5 && g == DigitsFrom(x0, |g|)
    modifies en
    ensures en[at..at + 5] == g
    ensures forall i :: 0 <= i < en.Length && !(at <= i < at + 5) ==> en[i] == old(en[i])
  {
    var x, n := x0, 5;
    assert g[..n] == g;
    while n > 0
      invariant 0 <= n <= 5 && g[..n] == DigitsFrom(x, n)
      invariant forall j :: at + n <= j < at + 5 ==> en[j] == g[j - at]
      invariant forall i :: 0 <= i < en.Length && !(at <= i < at + 5) ==> en[i] == old(en[i])
    {
      NextDigit(g, x, n);
      n := n - 1;
      en[at + n] := Letter(x % 85);
      x := x / 85;
    }
  }

  /** The buffer is allocated for five characters for every four bytes or part of them. */
  lemma {:induction false} FullFits(b: Bytes)
    ensures |Full(b)| <= (|b| + 3) / 4 * 5
    decreases |b|
  {
    if b != [] {
      FullFits(Behind(b));
      assert (|b| + 3) / 4 == (|Behind(b)| + 3) / 4 + 1;
    }
  }

  /** One turn of the main loop of dse_ascii85_encode. */
  method EncodeOne(en: array<char>, at: nat, rest: Bytes) returns (at': nat, rest': Bytes)
    requires rest != [] && at + |Head(rest)| < en.Length
    modifies en
    ensures rest' == Behind(rest) && at' == at + |Head(rest)|
    ensures forall i :: at <= i < at' ==> en[i] == Head(rest)[i - at]
    ensures forall i :: 0 <= i < en.Length && !(at <= i < at') ==> en[i] == old(en[i])
  {
    var x, n := TakeChunk(rest);
    rest' := rest[n..];
    if x == 0 && |rest'| >= 4 {
      en[at] := 'z';
      at' := at + 1;
    } else {
      PutGroup(en, at, x);
      at' := at + 5;
    }
  }

  lemma FullStep(full: Text, at: nat, rest: Bytes)
    requires at <= |full| && full[at..] == Full(rest) && rest != []
    ensures var at' := at + |Head(rest)|;
            && at' <= |full| && full[at'..] == Full(Behind(rest))
            && forall i :: at <= i < at' ==> full[i] == Head(rest)[i - at]
  {
    var n := |Head(rest)|;
    assert full[at + n..] == full[at..][n..];
    assert forall i :: at <= i < at + n ==> full[i] == full[at..][i - at];
  }

  /** The main loop of dse_ascii85_encode; it stays inside the buffer that was allocated. */
  method EncodeGroups(source: Bytes) returns (en: array<char>)
    ensures fresh(en) && en.Length == (|source| + 3) / 4 * 5 + 1 && Holds(en, Full(source))
  {
    en := new char[(|source| + 3) / 4 * 5 + 1](i => '\0');
    FullFits(source);
    FullEndsInGroup(source);
    ghost var full := Full(source);
    var at: nat, rest := 0, source;
    while rest != []
      invariant fresh(en) && |full| < en.Length && at <= |full|
      invariant full[at..] == Full(rest)
      invariant forall i :: 0 <= i < at ==> en[i] == full[i]
      invariant forall i :: at <= i < en.Length ==> en[i] == '\0'
      decreases |rest|
    {
      FullStep(full, at, rest);
      at, rest := EncodeOne(en, at, rest);
    }
    assert at == |full|;
  }

  /** en[strlen(en) - 1] = NUL. */
  method DropLast(en: array<char>, ghost text: Text)
    requires Holds(en, text) && text != []
    modifies en
    ensures Holds(en, text[..|text| - 1])
  {
    StrLenAt(en[..], |text|);
    assert en[..|text| - 1] == text[..|text| - 1];
    en[StrLen(en[..]) - 1] := '\0';
  }

  /** dse_ascii85_encode: the characters of the padding are taken off the end again, one by one. */
  method Encode(source: Bytes) returns (en: array<char>)
    ensures fresh(en) && Holds(en, Encoded(source))
  {
    var padding := if |source| % 4 != 0 then 4 - |source| % 4 else 0;
    en := EncodeGroups(source);
    FullEndsInGroup(source);
    ghost var full, text := Full(source), Full(source);
    var i := 1;
    while i <= padding
      invariant 1 <= i <= padding + 1 && fresh(en) && padding <= |full|
      invariant text == full[..|full| - (i - 1)] && Holds(en, text)
    {
      DropLast(en, text);
      text := text[..|text| - 1];
      i := i + 1;
    }
  }

  /** The loop of the decoder over the five characters of a group, read where they stand in the copy. */
  method TakeGroup(copy: array<char>, src: nat, ghost g: Text) returns (x: nat)
    requires |g| == 5 && src + 5 <= copy.Length && copy[src..src + 5] == g
    ensures x == ValueOf(g)
  {
    x := 0;
    var chunk := 0;
    while chunk <= 4
      invariant 0 <= chunk <= 5 && x == ValueOf(g[..chunk])
    {
      assert g[..chunk + 1][..chunk] == g[..chunk];
      assert copy[src + chunk] == g[chunk];
      x := (x * 85 + (copy[src + chunk] as int - 33)) % TWO_32;
      chunk := chunk + 1;
    }
    assert g[..5] == g;
  }

  /** dse_ascii85_decode, for every text whose reads stay inside the copy. */
  method Decode(source: Text) returns (en: array<u8>, len: nat)
    requires InnerZ(source) % 5 == 0 || InnerZ(source) % 5 == 4
    ensures fresh(en) && en.Length == Required(source) + 1
    ensures len < en.Length && en[..len] == Decoded(source)
  {
    var required, padding := DecodedSize(source);
    var copy := PaddedCopy(source, padding);
    ReadsExact(source);
    WritesFit(source);
    en := DecodeCopy(copy, Padded(source), required);
    ghost var d := DecodedGroups(Padded(source));
    assert en[..required] == d + seq(required - |d|, i => 0);
    DropPadding(en, required, padding);
    len := required - padding;
  }

  /** The copy of the source, filled up to whole groups by 'u', and its terminator. */
  method PaddedCopy(source: Text, padding: nat) returns (copy: array<char>)
    ensures fresh(copy) && copy[..] == source + Us(padding) + ['\0']
  {
    var n := |source|;
    copy := new char[n + padding + 1](i => if 0 <= i < n then source[i] else '\0');
    for i := 0 to padding
      invariant forall j :: 0 <= j < copy.Length ==>
                  copy[j] == if j < n then source[j] else if j < n + i then 'u' else '\0'
    {
      copy[n + i] := 'u';
    }
    assert copy[..] == source + Us(padding) + ['\0'];
  }

  /** The room for the decoded bytes, and the letters missing from the last group. */
  method DecodedSize(source: Text) returns (required: nat, padding: nat)
    ensures required == Required(source) && padding == DecodePadding(source)
  {
    var zCount := CountLettersZ(source);
    required := (|source| - zCount + 4) / 5 * 4 + zCount * 4;
    var sourceLen := |source| + zCount * 4;
    padding := if sourceLen % 5 != 0 then 5 - sourceLen % 5 else 0;
  }

  method CountLettersZ(source: Text) returns (zCount: nat)
    ensures zCount == CountZ(source)
  {
    zCount := 0;
    for p := 0 to |source|
      invariant zCount == CountZ(source[..p])
    {
      assert source[..p + 1][..p] == source[..p];
      if source[p] == 'z' {
        zCount := zCount + 1;
      }
    }
    assert source[..|source|] == source;
  }

  /** The bytes that only the padding gave are cleared. */
  method DropPadding(en: array<u8>, required: nat, padding: nat)
    requires padding <= required < en.Length
    modifies en
    ensures en[..required - padding] == old(en[..required - padding])
  {
    var i := 1;
    while i <= padding
      invariant 1 <= i <= padding + 1
      invariant en[..required - padding] == old(en[..required - padding])
    {
      en[required - i] := 0;
      i := i + 1;
    }
  }

  /** The main loop of dse_ascii85_decode.  Every read is an index into the copy, every write one into the buffer. */
  method DecodeCopy(copy: array<char>, ghost t: Text, required: nat) returns (en: array<u8>)
    requires copy[..] == t + ['\0'] && ReadsInside(t) && |DecodedGroups(t)| <= required
    ensures fresh(en) && en.Length == required + 1
    ensures var d := DecodedGroups(t);
            forall i :: 0 <= i <= required ==> en[i] == if i < |d| then d[i] else 0
  {
    en := new u8[required + 1](i => 0);
    ghost var d, rest := DecodedGroups(t), t;
    var paddedLen: int := copy.Length - 1;
    var src, walker := 0, 0;
    while paddedLen > 0
      invariant paddedLen == |t| - src && rest == (if src < |t| then t[src..] else []) && ReadsInside(rest)
      invariant fresh(en) && en.Length == required + 1 && walker <= |d| && d[walker..] == DecodedGroups(rest)
      invariant forall i :: 0 <= i <= required ==> en[i] == if i < walker then d[i] else 0
    {
      assert copy[src] == rest[0];
      var x := 0;
      HeadDecodes(rest);
      if copy[src] == 'z' {
        paddedLen := paddedLen - 1;
        src := src + 1;
        rest := rest[1..];
      } else {
        HeadInCopy(copy[..], t, src);
        x := TakeGroup(copy, src, GroupHead(rest));
        paddedLen := paddedLen - 5;
        src := src + 5;
        rest := BehindGroup(rest);
      }
      CutFour(d, walker, BytesFrom(x, 4), DecodedGroups(rest));
      PutBytes(en, walker, x);
      walker := walker + 4;
    }
  }

  lemma HeadInCopy(copy: Text, t: Text, src: nat)
    requires copy == t + ['\0'] && src + 4 <= |t|
    ensures src + 5 <= |copy| && copy[src..src + 5] == GroupHead(t[src..])
  {
  }

  /** One turn of that loop. */
  lemma HeadDecodes(rest: Text)
    requires rest != [] && ReadsInside(rest)
    ensures rest[0] == 'z' ==>
              DecodedGroups(rest) == BytesFrom(0, 4) + DecodedGroups(rest[1..]) && ReadsInside(rest[1..])
    ensures rest[0] != 'z' ==>
              && |rest| >= 4 && ReadsInside(BehindGroup(rest))
              && DecodedGroups(rest) == BytesFrom(ValueOf(GroupHead(rest)), 4) + DecodedGroups(BehindGroup(rest))
  {
    FourZeroes();
  }

  lemma CutFour(d: Bytes, at: nat, four: Bytes, rest: Bytes)
    requires at <= |d| && d[at..] == four + rest && |four| == 4
    ensures at + 4 <= |d| && d[at..at + 4] == four && d[at + 4..] == rest
  {
    assert d[at..][..4] == four && d[at..][4..] == rest;
  }

  lemma FourZeroes()
    ensures BytesFrom(0, 4) == [0, 0, 0, 0]
  {
    assert BytesFrom(0, 4) == BytesFrom(0, 3) + [0] == BytesFrom(0, 2) + [0] + [0] == BytesFrom(0, 1) + [0] + [0] + [0];
  }

  /** x >> (8 * k). */
  function Shifted(x: nat, k: nat): nat {
    if k == 0 then x else Shifted(x / 256, k - 1)
  }

  lemma {:induction false} ShiftedByte(x: nat, n: nat, k: nat)
    requires k < n
    ensures Shifted(x, k) % 256 == BytesFrom(x, n)[n - 1 - k]
    decreases k
  {
    if k > 0 {
      ShiftedByte(x / 256, n - 1, k - 1);
    }
  }

  /** The inner loop of the decoder that writes four bytes, each shifted down and cut to a char. */
  method PutBytes(en: array<u8>, at: nat, x: nat)
    requires at + 4 <= en.Length
    modifies en
    ensures en[at..at + 4] == BytesFrom(x, 4)
    ensures forall i :: 0 <= i < en.Length && !(at <= i < at + 4) ==> en[i] == old(en[i])
  {
    ghost var four := BytesFrom(x, 4);
    var byte, n := 3, 0;
    while byte >= 0
      invariant n == 3 - byte && -1 <= byte <= 3
      invariant en[at..at + n] == four[..n]
      invariant forall i :: 0 <= i < en.Length && !(at <= i < at + 4) ==> en[i] == old(en[i])
    {
      ShiftedByte(x, 4, byte);
      en[at + n] := Shifted(x, byte) % 256;
      byte, n := byte - 1, n + 1;
    }
  }
}
