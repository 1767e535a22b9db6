/** ASCII85 as dse/clib/util/ascii85.c encodes and decodes it: groups as in section 7.4.3 of ISO 32000-1,
    without the end marker. */
module Ascii85 {
  import opened Widths
  import opened Words

  /** A C string: its characters, without the terminator. */
  type Text = string

  // ---- one group ----

  /** Bytes shifted together, the first one highest. */
  function BigEndian(b: Bytes): nat {
    if b == [] then 0
    else
      var last: int := b[|b| - 1];
      BigEndian(b[..|b| - 1]) * 256 + last
  }

  /** The k low bytes of a value, the highest first. */
  function BytesFrom(x: nat, k: nat): (b: Bytes)
    ensures |b| == k
  {
    if k == 0 then [] else BytesFrom(x / 256, k - 1) + [x % 256]
  }

  function Letter(d: nat): (c: char)
    requires d < 85
    ensures '!' <= c <= 'u'
  {
    d as char + '!'
  }

  /** What the decoder takes a character for; only that of a letter is a digit. */
  function Digit(c: char): (d: int)
    ensures '!' <= c <= 'u' ==> 0 <= d < 85
  {
    c as int - 33
  }

  predicate Letters(s: Text) {
    forall i :: 0 <= i < |s| ==> '!' <= s[i] <= 'u'
  }

  /** The k last base-85 digits, the most significant first; they are split off from the other end. */
  function DigitsFrom(x: nat, k: nat): (g: Text)
    ensures |g| == k && Letters(g)
  {
    if k == 0 then [] else DigitsFrom(x / 85, k - 1) + [Letter(x % 85)]
  }

  /** The letters of a group: one more than it has bytes, that is five. */
  function GroupOf(f: Bytes): (g: Text)
    ensures |g| == |f| + 1 && Letters(g)
  {
    DigitsFrom(BigEndian(f), |f| + 1)
  }

  /** x * 85 + (c - 33) in a uint32_t, over the characters of a group. */
  function ValueOf(g: Text): (x: nat)
    ensures x < TWO_32
  {
    if g == [] then 0 else (ValueOf(g[..|g| - 1]) * 85 + Digit(g[|g| - 1])) % TWO_32
  }

  /** The bytes a group stands for: one less than it has letters, that is four. */
  function BytesOf(g: Text): (b: Bytes)
    requires g != []
    ensures |b| == |g| - 1
  {
    BytesFrom(ValueOf(g), |g| - 1)
  }

  // ---- encode ----

  function Padding(n: nat): nat {
    if n % 4 != 0 then 4 - n % 4 else 0
  }

  /** The first four bytes, zeroes taking the place of missing ones. */
  function First(b: Bytes): (f: Bytes)
    ensures |f| == 4
  {
    if |b| >= 4 then b[..4] else b + seq(4 - |b|, i => 0)
  }

  function Behind(b: Bytes): Bytes {
    if |b| >= 4 then b[4..] else []
  }

  /** What the encoder writes for the first four bytes: 'z' for a zero group unless fewer than four follow. */
  function Head(b: Bytes): Text {
    if BigEndian(First(b)) == 0 && |Behind(b)| >= 4 then ['z'] else GroupOf(First(b))
  }

  /** The loop of the encoder: whole groups only, the last one padded. */
  function Full(b: Bytes): Text
    decreases |b|
  {
    if b == [] then [] else Head(b) + Full(Behind(b))
  }

  lemma {:induction false} FullEndsInGroup(b: Bytes)
    ensures b != [] ==> |Full(b)| >= 5
    ensures forall c :: c in Full(b) ==> c == 'z' || '!' <= c <= 'u'
    decreases |b|
  {
    if b != [] {
      FullEndsInGroup(Behind(b));
    }
  }

  /** dse_ascii85_encode. */
  function Encoded(b: Bytes): Text {
    FullEndsInGroup(b);
    Full(b)[..|Full(b)| - Padding(|b|)]
  }

  // ---- decode ----

  function CountZ(s: Text): (n: nat)
    ensures n <= |s|
  {
    if s == [] then 0 else CountZ(s[..|s| - 1]) + (if s[|s| - 1] == 'z' then 1 else 0)
  }

  function DecodePadding(s: Text): (p: nat)
    ensures p < 5
  {
    var n := |s| + CountZ(s) * 4;
    if n % 5 != 0 then 5 - n % 5 else 0
  }

  function Required(s: Text): nat {
    (|s| - CountZ(s) + 4) / 5 * 4 + CountZ(s) * 4
  }

  /** A text of 'z' and whole groups of five letters. */
  predicate Grouped(s: Text)
    decreases |s|
  {
    if s == [] then true
    else if s[0] == 'z' then Grouped(s[1..])
    else |s| >= 5 && Letters(s[..5]) && Grouped(s[5..])
  }

  function Us(n: nat): (s: Text)
    ensures |s| == n && forall i :: 0 <= i < n ==> s[i] == 'u'
  {
    seq(n, i => 'u')
  }

  /** The padded copy of the source; its terminator follows. */
  function Padded(s: Text): Text {
    s + Us(DecodePadding(s))
  }

  /** What the decoder reads from its place on as a group; behind the end of the text it meets the terminator. */
  function GroupHead(t: Text): (g: Text)
    ensures |g| == 5
  {
    if |t| >= 5 then t[..5] else t + seq(5 - |t|, i => '\0')
  }

  function BehindGroup(t: Text): Text {
    if |t| >= 5 then t[5..] else []
  }

  /** The main loop of the decoder over a text. */
  function DecodedGroups(t: Text): Bytes
    decreases |t|
  {
    if t == [] then []
    else if t[0] == 'z' then [0, 0, 0, 0] + DecodedGroups(t[1..])
    else BytesOf(GroupHead(t)) + DecodedGroups(BehindGroup(t))
  }

  /** How many characters that loop reads, from the first one on. */
  function ReadUpTo(t: Text): nat
    decreases |t|
  {
    if t == [] then 0
    else if t[0] == 'z' then 1 + ReadUpTo(t[1..])
    else 5 + ReadUpTo(BehindGroup(t))
  }

  /** The reads stay inside the copy: they go no further than its terminator. */
  predicate ReadsInside(t: Text) {
    ReadUpTo(t) <= |t| + 1
  }

  lemma {:induction false} CountZConcat(x: Text, y: Text)
    ensures CountZ(x + y) == CountZ(x) + CountZ(y)
    decreases |y|
  {
    if y == [] {
      assert x + y == x;
    } else {
      CountZConcat(x, y[..|y| - 1]);
      assert (x + y)[..|x + y| - 1] == x + y[..|y| - 1];
    }
  }

  lemma {:induction false} NoZ(s: Text)
    requires 'z' !in s
    ensures CountZ(s) == 0
    decreases |s|
  {
    if s != [] {
      NoZ(s[..|s| - 1]);
    }
  }

  // ---- how a text divides ----

  /** The z's that stand for a group of zeroes. */
  function HeadZ(t: Text): nat
    decreases |t|
  {
    if t == [] then 0 else if t[0] == 'z' then 1 + HeadZ(t[1..]) else HeadZ(BehindGroup(t))
  }

  /** The z's that stand inside a group, where they count as characters like any other. */
  function InnerZ(t: Text): nat
    decreases |t|
  {
    if t == [] then 0
    else if t[0] == 'z' then InnerZ(t[1..])
    else CountZ(if |t| >= 5 then t[..5] else t) + InnerZ(BehindGroup(t))
  }

  function WholeGroups(t: Text): nat
    decreases |t|
  {
    if t == [] then 0
    else if t[0] == 'z' then WholeGroups(t[1..])
    else (if |t| >= 5 then 1 else 0) + WholeGroups(BehindGroup(t))
  }

  /** The characters of a last group that is not whole. */
  function Left(t: Text): (n: nat)
    ensures n < 5
    decreases |t|
  {
    if t == [] then 0 else if t[0] == 'z' then Left(t[1..]) else if |t| < 5 then |t| else Left(t[5..])
  }

  lemma {:induction false} Division(t: Text)
    ensures |t| == HeadZ(t) + 5 * WholeGroups(t) + Left(t)
    ensures |DecodedGroups(t)| == 4 * (HeadZ(t) + WholeGroups(t) + (if Left(t) > 0 then 1 else 0))
    ensures ReadUpTo(t) == |t| + (if Left(t) > 0 then 5 - Left(t) else 0)
    decreases |t|
  {
    if t != [] {
      Division(if t[0] == 'z' then t[1..] else BehindGroup(t));
    }
  }

  lemma {:induction false} EveryZ(t: Text)
    ensures CountZ(t) == HeadZ(t) + InnerZ(t)
    decreases |t|
  {
    if t != [] {
      if t[0] == 'z' {
        CutZ(t, 1);
        OneZ(t[0]);
        assert t[..1] == [t[0]];
        EveryZ(t[1..]);
      } else if |t| >= 5 {
        CutZ(t, 5);
        EveryZ(t[5..]);
      }
    }
  }

  lemma CutZ(t: Text, n: nat)
    requires n <= |t|
    ensures CountZ(t) == CountZ(t[..n]) + CountZ(t[n..])
  {
    assert t == t[..n] + t[n..];
    CountZConcat(t[..n], t[n..]);
  }

  lemma OneZ(c: char)
    ensures CountZ([c]) == if c == 'z' then 1 else 0
  {
    assert [c][..0] == [];
  }

  /** Padding adds letters to groups, and no z. */
  lemma {:induction false} PaddingAddsNoZ(s: Text, k: nat)
    ensures HeadZ(s + Us(k)) == HeadZ(s) && CountZ(s + Us(k)) == CountZ(s)
    decreases |s|
  {
    CountZConcat(s, Us(k));
    NoZ(Us(k));
    if s == [] || (s[0] != 'z' && |s| < 5) {
      NoHeadZ(if s == [] then Us(k) else BehindGroup(s + Us(k)));
      assert s == [] ==> s + Us(k) == Us(k);
    } else if s[0] == 'z' {
      assert (s + Us(k))[1..] == s[1..] + Us(k);
      PaddingAddsNoZ(s[1..], k);
    } else {
      assert (s + Us(k))[5..] == s[5..] + Us(k);
      PaddingAddsNoZ(s[5..], k);
    }
  }

  lemma {:induction false} NoHeadZ(t: Text)
    requires 'z' !in t
    ensures HeadZ(t) == 0
    decreases |t|
  {
    if t != [] {
      NoHeadZ(BehindGroup(t));
    }
  }

  // ---- what the decoder reads and writes ----

  lemma CopyDivides(s: Text, k: nat)
    ensures var t := s + Us(k);
            && InnerZ(t) == InnerZ(s)
            && CountZ(s) == HeadZ(t) + InnerZ(t)
            && |s| - CountZ(s) + k == 5 * WholeGroups(t) + Left(t) - InnerZ(t)
  {
    PaddingAddsNoZ(s, k);
    EveryZ(s);
    EveryZ(s + Us(k));
    Division(s + Us(k));
  }

  /** What is left of the padded copy for a last group that is not whole: the padding is right as far as every z
      stands for a group of its own. */
  lemma LeftIsInnerZ(s: Text)
    ensures Left(Padded(s)) == InnerZ(s) % 5
  {
    LeftOfCopy(s, DecodePadding(s));
  }

  lemma LeftOfCopy(s: Text, k: nat)
    requires k == DecodePadding(s)
    ensures Left(s + Us(k)) == InnerZ(s) % 5
  {
    CopyDivides(s, k);
    var t := s + Us(k);
    LeftModulo(|s|, k, CountZ(s), HeadZ(t), InnerZ(s), WholeGroups(t), Left(t));
  }

  lemma LeftModulo(len: nat, k: nat, z: nat, heads: nat, inner: nat, whole: nat, left: nat)
    requires var n := len + z * 4; k == if n % 5 != 0 then 5 - n % 5 else 0
    requires z == heads + inner && len - z + k == 5 * whole + left - inner && left < 5
    ensures left == inner % 5
  {
    var m := FullFives(len + z * 4, k);
    LeftOver(left, inner, m - heads - whole);
  }

  lemma FullFives(n: nat, k: nat) returns (m: nat)
    requires k == if n % 5 != 0 then 5 - n % 5 else 0
    ensures n + k == 5 * m
  {
    m := (n + k) / 5;
  }

  lemma LeftOver(left: nat, inner: nat, m: int)
    requires left < 5 && left + 4 * inner == 5 * m
    ensures left == inner % 5
  {
    assert inner == 5 * (inner - m) + left;
  }

  /** For every text, the decoder's reads stay inside its copy exactly if the number of z's inside groups is 0
      or 4 modulo 5; otherwise it reads that many characters past the terminator as are missing to 4. */
  lemma ReadsExact(s: Text)
    ensures var t, left := Padded(s), InnerZ(s) % 5;
            && (ReadsInside(t) <==> left == 0 || left == 4)
            && ReadUpTo(t) == |t| + (if left == 0 then 0 else 5 - left)
  {
    LeftIsInnerZ(s);
    Division(Padded(s));
  }

  /** For every text, the writes stay inside the buffer, and so does the correction of the padding. */
  lemma WritesFit(s: Text)
    ensures |DecodedGroups(Padded(s))| <= Required(s) && DecodePadding(s) <= Required(s)
  {
    CopyFits(s, DecodePadding(s));
  }

  lemma CopyFits(s: Text, k: nat)
    requires k == DecodePadding(s)
    ensures |DecodedGroups(s + Us(k))| <= Required(s) && k <= Required(s)
  {
    var t := s + Us(k);
    CopyDivides(s, k);
    LeftOfCopy(s, k);
    Division(t);
    RoomEnough(|s| - CountZ(s), k, HeadZ(t), WholeGroups(t), InnerZ(s), Left(t));
  }

  /** The arithmetic of the buffer: every z counts for four bytes, also those inside groups. */
  lemma RoomEnough(letters: nat, k: nat, heads: nat, whole: nat, inner: nat, left: nat)
    requires letters + k == 5 * whole + left - inner && k < 5 && left == inner % 5
    ensures var required := (letters + 4) / 5 * 4 + (heads + inner) * 4;
            4 * (heads + whole + (if left > 0 then 1 else 0)) <= required && k <= required
  {
    var q := inner / 5;
    assert inner == 5 * q + left;
    RoundedUp(letters, k, whole - q);
  }

  lemma RoundedUp(letters: nat, k: nat, groups: int)
    requires letters + k == 5 * groups && k < 5
    ensures (letters + 4) / 5 == groups && k <= 4 * groups
  {
  }

  /** In a grouped text no z is inside a group, so nothing is left over. */
  lemma {:induction false} GroupedDivision(t: Text)
    requires Grouped(t)
    ensures InnerZ(t) == 0 && Left(t) == 0
    decreases |t|
  {
    if t != [] {
      if t[0] == 'z' {
        GroupedDivision(t[1..]);
      } else {
        NoZ(t[..5]);
        GroupedDivision(t[5..]);
      }
    }
  }

  /** A text that k letters make grouped: its padding is k, and what it decodes to fills the buffer. */
  lemma PaddingFromLength(s: Text, k: nat)
    requires k < 5 && Grouped(s + Us(k))
    ensures DecodePadding(s) == k && InnerZ(s) == 0
    ensures |DecodedGroups(s + Us(k))| == Required(s)
  {
    GroupedCopy(s, k);
    MissingToFive(|s| + CountZ(s) * 4, WholeGroups(s + Us(k)) + CountZ(s), k);
    FillsBuffer(s, k);
  }

  lemma GroupedCopy(s: Text, k: nat)
    requires k < 5 && Grouped(s + Us(k))
    ensures InnerZ(s) == 0 && |s| - CountZ(s) + k == 5 * WholeGroups(s + Us(k))
    ensures |DecodedGroups(s + Us(k))| == 4 * CountZ(s) + 4 * WholeGroups(s + Us(k))
  {
    GroupedDivision(s + Us(k));
    Division(s + Us(k));
    CopyDivides(s, k);
  }

  lemma FillsBuffer(s: Text, k: nat)
    requires k < 5 && Grouped(s + Us(k))
    ensures |DecodedGroups(s + Us(k))| == Required(s)
  {
    GroupedCopy(s, k);
    RoundedUp(|s| - CountZ(s), k, WholeGroups(s + Us(k)));
  }

  lemma MissingToFive(n: nat, groups: nat, k: nat)
    requires n == 5 * groups - k && k < 5
    ensures k == if n % 5 != 0 then 5 - n % 5 else 0
  {
  }

  /** dse_ascii85_decode: the decoded groups, with zeroes where the buffer is larger, less one byte for each
      padded letter. */
  function Decoded(s: Text): (b: Bytes)
    ensures |b| == Required(s) - DecodePadding(s)
  {
    WritesFit(s);
    var d := DecodedGroups(Padded(s));
    (d + seq(Required(s) - |d|, i => 0))[..Required(s) - DecodePadding(s)]
  }

  /** One z inside a group: the decoder reads three characters past the terminator of its copy. */
  lemma ReadsPastTheEnd()
    ensures var t := Padded("abz"); t == "abzuuu" && ReadUpTo(t) == |t| + 4 && !ReadsInside(t)
  {
    NoZ("ab");
    OneZ('z');
    CountZConcat("ab", "z");
    assert "ab" + "z" == "abz";
    ReadsExact("abz");
    assert Padded("abz") == "abzuuu";
  }

  /** Four z's inside a group: the last group ends with the terminator. */
  lemma ReadsTheTerminator()
    ensures var t := Padded("azzzz"); t == "azzzzuuuu" && ReadUpTo(t) == |t| + 1 && ReadsInside(t)
  {
    NoZ("a");
    OneZ('z');
    CountZConcat("z", "z");
    CountZConcat("zz", "zz");
    CountZConcat("a", "zzzz");
    assert "z" + "z" == "zz" && "zz" + "zz" == "zzzz" && "a" + "zzzz" == "azzzz";
    InnerOfGroup("azzzz");
    ReadsExact("azzzz");
    assert Padded("azzzz") == "azzzzuuuu";
  }

  lemma InnerOfGroup(g: Text)
    requires |g| == 5 && g[0] != 'z'
    ensures InnerZ(g) == CountZ(g)
  {
    assert g[..5] == g && g[5..] == [];
  }

  /** Characters that are no letters of the code are read like letters. */
  lemma ReadsOtherCharacters()
    ensures var t := Padded("~~~~~"); t == "~~~~~" && ReadUpTo(t) == |t| && ReadsInside(t)
  {
    NoZ("~~~~~");
    InnerOfGroup("~~~~~");
    ReadsExact("~~~~~");
    assert Padded("~~~~~") == "~~~~~";
  }

  // ---- round trip ----

  function Pow(base: nat, k: nat): (p: nat)
    ensures base > 0 ==> p > 0
  {
    if k == 0 then 1 else base * Pow(base, k - 1)
  }

  lemma {:induction false} BytesComeBack(b: Bytes)
    ensures BytesFrom(BigEndian(b), |b|) == b
    decreases |b|
  {
    if b != [] {
      var last: int := b[|b| - 1];
      BytesComeBack(b[..|b| - 1]);
      assert BigEndian(b) / 256 == BigEndian(b[..|b| - 1]) && BigEndian(b) % 256 == last;
    }
  }

  lemma {:induction false} BigEndianBound(b: Bytes)
    ensures BigEndian(b) < Pow(256, |b|)
    decreases |b|
  {
    if b != [] {
      BigEndianBound(b[..|b| - 1]);
    }
  }

  lemma FourByteBound(b: Bytes)
    requires |b| == 4
    ensures BigEndian(b) < TWO_32
  {
    BigEndianBound(b);
    Powers();
  }

  lemma Powers()
    ensures Pow(256, 1) == 0x100 && Pow(256, 2) == 0x10000 && Pow(256, 3) == 0x1000000 && Pow(256, 4) == TWO_32
    ensures Pow(85, 1) == 85 && Pow(85, 2) == 7225 && Pow(85, 3) == 614125 && Pow(85, 5) == 4437053125
  {
  }

  lemma DivideBelow(x: nat, p: nat)
    requires x < 85 * p
    ensures x / 85 < p && x / 85 * 85 + x % 85 == x
  {
  }

  /** Letters of a value give it back, as long as it fits: no step of the decoder passes 2^32. */
  lemma {:induction false} DigitsComeBack(x: nat, k: nat)
    requires x < TWO_32 && x < Pow(85, k)
    ensures ValueOf(DigitsFrom(x, k)) == x
  {
    if k > 0 {
      DivideBelow(x, Pow(85, k - 1));
      DigitsComeBack(x / 85, k - 1);
      ValueStep(DigitsFrom(x / 85, k - 1), x);
    }
  }

  lemma ValueStep(g: Text, x: nat)
    requires Letters(g) && ValueOf(g) == x / 85 && x < TWO_32
    ensures Letters(g + [Letter(x % 85)]) && ValueOf(g + [Letter(x % 85)]) == x
  {
    DivideBelow(x, x + 1);
    LastLetter(g, x % 85);
  }

  /** One step of the decoder that does not pass 2^32. */
  lemma LastLetter(g: Text, d: nat)
    requires Letters(g) && d < 85 && ValueOf(g) * 85 + d < TWO_32
    ensures Letters(g + [Letter(d)]) && ValueOf(g + [Letter(d)]) == ValueOf(g) * 85 + d
  {
    var h := g + [Letter(d)];
    assert h[..|h| - 1] == g && h[|h| - 1] == Letter(d);
    LetterDigit(d);
    Unwrapped(ValueOf(g) * 85 + d);
  }

  lemma LetterDigit(d: nat)
    requires d < 85
    ensures Digit(Letter(d)) == d
  {
  }

  lemma Unwrapped(x: nat)
    requires x < TWO_32
    ensures x % TWO_32 == x
  {
  }

  /** A whole group keeps its bytes. */
  lemma GroupComesBack(f: Bytes)
    requires |f| == 4
    ensures BytesOf(GroupOf(f)) == f
  {
    FourByteBound(f);
    Powers();
    DigitsComeBack(BigEndian(f), 5);
    BytesComeBack(f);
  }

  /** The value with its k last digits replaced by 84, the digit of 'u'. */
  function Raised(x: nat, k: nat): nat {
    if k == 0 then x else Raised(x / 85, k - 1) * 85 + 84
  }

  /** Raising adds less than 85^k. */
  lemma {:induction false} RaisedBound(x: nat, k: nat)
    ensures x <= Raised(x, k) < x + Pow(85, k)
  {
    if k > 0 {
      RaisedBound(x / 85, k - 1);
    }
  }

  /** The decoder's value of letters whose k last ones were replaced by 'u'. */
  lemma {:induction false} RaisedValue(x: nat, n: nat, k: nat)
    requires k <= n && x < Pow(85, n) && Raised(x, k) < TWO_32
    ensures ValueOf(RaisedText(x, n, k)) == Raised(x, k)
    decreases k
  {
    if k == 0 {
      assert RaisedText(x, n, 0) == DigitsFrom(x, n);
      DigitsComeBack(x, n);
    } else {
      DivideBelow(x, Pow(85, n - 1));
      RaisedValue(x / 85, n - 1, k - 1);
      RaisedStep(x, n, k);
      LastLetter(RaisedText(x / 85, n - 1, k - 1), 84);
    }
  }

  function RaisedText(x: nat, n: nat, k: nat): (g: Text)
    requires k <= n
    ensures |g| == n && Letters(g)
  {
    DigitsFrom(x, n)[..n - k] + Us(k)
  }

  lemma RaisedStep(x: nat, n: nat, k: nat)
    requires 0 < k <= n
    ensures RaisedText(x, n, k) == RaisedText(x / 85, n - 1, k - 1) + [Letter(84)]
  {
  }

  lemma DivideShifted(m: nat, r: nat, p: nat)
    requires r < 256 * p
    ensures (256 * m + r) / 256 == m + r / 256 && r / 256 < p
  {
  }

  lemma Regroup(m: nat, p: nat)
    ensures m * (256 * p) == 256 * (m * p)
  {
  }

  /** The bytes above the k last ones do not depend on what is added below 256^k. */
  lemma {:induction false} HighBytes(m: nat, r: nat, n: nat, k: nat)
    requires k <= n && r < Pow(256, k)
    ensures BytesFrom(m * Pow(256, k) + r, n)[..n - k] == BytesFrom(m, n - k)
    decreases k
  {
    var x := m * Pow(256, k) + r;
    if k == 0 {
      assert BytesFrom(x, n)[..n] == BytesFrom(x, n);
    } else {
      var p := Pow(256, k - 1);
      Regroup(m, p);
      DivideShifted(m * p, r, p);
      HighBytes(m, r / 256, n - 1, k - 1);
      assert BytesFrom(x, n)[..n - k] == BytesFrom(x / 256, n - 1)[..n - k];
    }
  }

  lemma {:induction false} TrailingZeroes(b: Bytes, k: nat)
    ensures BigEndian(b + seq(k, i => 0)) == BigEndian(b) * Pow(256, k)
    decreases k
  {
    var z: Bytes := b + seq(k, i => 0);
    if k == 0 {
      assert z == b;
    } else {
      TrailingZeroes(b, k - 1);
      assert z[..|z| - 1] == b + seq(k - 1, i => 0);
      Regroup(BigEndian(b), Pow(256, k - 1));
    }
  }

  /** 85^k is less than 256^k: raising the value of a padded tail passes neither the next multiple of 256^k
      nor 2^32. */
  lemma TailStaysBelow(m: nat, k: nat)
    requires 1 <= k <= 3 && m < Pow(256, 4 - k)
    ensures Pow(85, k) < Pow(256, k)
    ensures m * Pow(256, k) + Pow(256, k) <= TWO_32
  {
    Powers();
    if k == 1 {
      assert m + 1 <= 0x1000000;
    } else if k == 2 {
      assert m + 1 <= 0x10000;
    } else {
      assert m + 1 <= 0x100;
    }
  }

  /** What the decoder makes of a padded tail. */
  lemma TailValue(b: Bytes)
    requires 0 < |b| < 4
    ensures var k, g := 4 - |b|, GroupOf(First(b))[..|b| + 1] + Us(4 - |b|);
            && Letters(g)
            && BigEndian(b) * Pow(256, k) <= ValueOf(g) < BigEndian(b) * Pow(256, k) + Pow(256, k)
  {
    var k, m, x := 4 - |b|, BigEndian(b), BigEndian(First(b));
    TrailingZeroes(b, k);
    BigEndianBound(b);
    TailStaysBelow(m, k);
    RaisedBound(x, k);
    assert x < Pow(85, 5) by { Powers(); }
    RaisedValue(x, 5, k);
  }

  /** A tail of one to three bytes comes back as the first bytes of its padded group. */
  lemma TailComesBack(b: Bytes)
    requires 0 < |b| < 4
    ensures var g := GroupOf(First(b))[..|b| + 1] + Us(4 - |b|); Letters(g) && BytesOf(g)[..|b|] == b
  {
    var k, m, g := 4 - |b|, BigEndian(b), GroupOf(First(b))[..|b| + 1] + Us(4 - |b|);
    TailValue(b);
    HighBytes(m, ValueOf(g) - m * Pow(256, k), |g| - 1, k);
    BytesComeBack(b);
  }

  /** The text is a grouped text that decodes to these bytes and, behind them, n more. */
  ghost predicate Decodes(p: Text, b: Bytes, n: nat) {
    Grouped(p) && |DecodedGroups(p)| == |b| + n && DecodedGroups(p)[..|b|] == b
  }

  lemma GroupBehind(g: Text, q: Text, four: Bytes, b: Bytes, n: nat)
    requires Decodes(q, b, n) && |four| == 4
    requires (g == ['z'] && four == [0, 0, 0, 0]) || (|g| == 5 && Letters(g) && BytesOf(g) == four)
    ensures Decodes(g + q, four + b, n)
  {
    assert (g + q)[..|g|] == g && (g + q)[|g|..] == q;
    assert DecodedGroups(g + q) == four + DecodedGroups(q);
  }

  lemma TailDecodes(b: Bytes)
    requires 0 < |b| < 4
    ensures Decodes(Encoded(b) + Us(Padding(|b|)), b, Padding(|b|))
  {
    var p := GroupOf(First(b))[..|b| + 1] + Us(4 - |b|);
    TailComesBack(b);
    assert Full(b) == GroupOf(First(b)) + [] == GroupOf(First(b));
    assert Encoded(b) + Us(Padding(|b|)) == p;
    assert p[..5] == p && p[5..] == [];
    assert DecodedGroups(p) == BytesOf(p) + [];
  }

  lemma ZeroOnly(b: Bytes)
    requires BigEndian(b) == 0 && |b| == 4
    ensures b == [0, 0, 0, 0]
  {
    BytesComeBack(b);
    assert BytesFrom(0, 4) == BytesFrom(0, 3) + [0] == BytesFrom(0, 2) + [0] + [0] == BytesFrom(0, 1) + [0] + [0] + [0];
  }

  /** The encoder's head for a whole group, and what is behind it. */
  lemma EncodedHead(b: Bytes)
    requires |b| >= 4
    ensures Encoded(b) == Head(b) + Encoded(b[4..])
    ensures var g := Head(b);
            (g == ['z'] && b[..4] == [0, 0, 0, 0]) || (|g| == 5 && Letters(g) && BytesOf(g) == b[..4])
  {
    if BigEndian(b[..4]) == 0 {
      ZeroOnly(b[..4]);
    }
    GroupComesBack(b[..4]);
    FullEndsInGroup(b[4..]);
    PaddingOfRest(|b| - 4);
    CutBehind(Head(b), Full(b[4..]), Padding(|b|));
  }

  lemma CutBehind(g: Text, t: Text, n: nat)
    requires n <= |t|
    ensures (g + t)[..|g + t| - n] == g + t[..|t| - n]
  {
  }

  /** What the decoder makes of an encoded text after padding it. */
  lemma {:induction false} GroupsComeBack(b: Bytes)
    ensures Decodes(Encoded(b) + Us(Padding(|b|)), b, Padding(|b|))
    decreases |b|
  {
    if b == [] {
      assert Encoded(b) + Us(Padding(|b|)) == [];
    } else if |b| < 4 {
      TailDecodes(b);
    } else {
      GroupsComeBack(b[4..]);
      HeadInFront(b);
    }
  }

  /** A whole group in front of a text that comes back. */
  lemma HeadInFront(b: Bytes)
    requires |b| >= 4 && Decodes(Encoded(b[4..]) + Us(Padding(|b| - 4)), b[4..], Padding(|b| - 4))
    ensures Decodes(Encoded(b) + Us(Padding(|b|)), b, Padding(|b|))
  {
    EncodedHead(b);
    PaddingOfRest(|b| - 4);
    var g, us := Head(b), Us(Padding(|b|));
    GroupBehind(g, Encoded(b[4..]) + us, b[..4], b[4..], |us|);
    assert g + (Encoded(b[4..]) + us) == g + Encoded(b[4..]) + us;
    assert b[..4] + b[4..] == b;
  }

  lemma PaddingOfRest(n: nat)
    ensures Padding(n + 4) == Padding(n) < 4
  {
  }

  /** Decoding an encoded byte string gives it back with its exact length, for every byte string. */
  lemma RoundTrip(b: Bytes)
    ensures InnerZ(Encoded(b)) == 0 && Decoded(Encoded(b)) == b
  {
    GroupsComeBack(b);
    PaddingFromLength(Encoded(b), Padding(|b|));
  }

  lemma EncodingInjective(b: Bytes, c: Bytes)
    requires Encoded(b) == Encoded(c)
    ensures b == c
  {
    RoundTrip(b);
    RoundTrip(c);
  }
}
