/** Unpadded base64url (base64url_encode and base64url_decode in src/security/invite.cpp; section 5 of RFC 4648). */
module Base64Url {
  import opened Bytes
  import opened Sequences
  import opened Arithmetic

  /** Position v of the alphabet A-Z a-z 0-9 - _. */
  function Digit(v: nat): char
    requires v < 64
  {
    if v < 26 then ('A' as int + v) as char
    else if v < 52 then ('a' as int + v - 26) as char
    else if v < 62 then ('0' as int + v - 52) as char
    else if v == 62 then '-'
    else '_'
  }

  /** The value of a digit; None for a character outside the alphabet. */
  function DigitValue(c: char): Option<nat> {
    if 'A' <= c <= 'Z' then Some(c as int - 'A' as int)
    else if 'a' <= c <= 'z' then Some(c as int - 'a' as int + 26)
    else if '0' <= c <= '9' then Some(c as int - '0' as int + 52)
    else if c == '-' then Some(62)
    else if c == '_' then Some(63)
    else None
  }

  lemma DigitRoundTrip(v: nat)
    requires v < 64
    ensures DigitValue(Digit(v)) == Some(v)
  {
  }

  lemma DigitValueRoundTrip(c: char)
    requires DigitValue(c).Some?
    ensures DigitValue(c).value < 64 && Digit(DigitValue(c).value) == c
  {
  }

  // ---------- the encoding by bit positions, as RFC 4648 describes it ----------

  type sextet = x: int | 0 <= x < 64

  /** A byte beyond the end counts as zero bits. */
  function ByteAt(x: seq<byte>, i: nat): byte {
    if i < |x| then x[i] else 0
  }

  function First(a: byte): sextet { a / 4 }
  function Second(a: byte, b: byte): sextet { a % 4 * 16 + b / 16 }
  function Third(b: byte, c: byte): sextet { b % 16 * 4 + c / 64 }
  function Fourth(c: byte): sextet { c % 64 }

  /** Sextet r of three bytes. */
  function Sextet(a: byte, b: byte, c: byte, r: nat): sextet {
    if r == 0 then First(a) else if r == 1 then Second(a, b) else if r == 2 then Third(b, c) else Fourth(c)
  }

  /** Sextet r of group g: bits 6(4g + r) to 6(4g + r) + 5 of the input. Four sextets span three bytes. */
  function SextetIn(x: seq<byte>, g: nat, r: nat): sextet {
    Sextet(ByteAt(x, 3 * g), ByteAt(x, 3 * g + 1), ByteAt(x, 3 * g + 2), r)
  }

  function Sextets(x: seq<byte>): seq<sextet> {
    seq((4 * |x| + 2) / 3, j requires 0 <= j => SextetIn(x, j / 4, j % 4))
  }

  function At(d: seq<sextet>, j: nat): sextet {
    if j < |d| then d[j] else 0
  }

  function High(a: sextet, b: sextet): byte { (a as int) * 4 + b / 16 }
  function Middle(a: sextet, b: sextet): byte { (a as int) % 16 * 16 + b / 4 }
  function Low(a: sextet, b: sextet): byte { (a as int) % 4 * 64 + b }

  /** Byte r of four sextets. */
  function Octet(s: sextet, t: sextet, u: sextet, v: sextet, r: nat): byte {
    if r == 0 then High(s, t) else if r == 1 then Middle(t, u) else Low(u, v)
  }

  /** Byte r of group g of the sextets. */
  function OctetIn(d: seq<sextet>, g: nat, r: nat): byte {
    Octet(At(d, 4 * g), At(d, 4 * g + 1), At(d, 4 * g + 2), At(d, 4 * g + 3), r)
  }

  /** The whole bytes of the sextets. */
  function Octets(d: seq<sextet>): seq<byte> {
    seq(3 * |d| / 4, i requires 0 <= i => OctetIn(d, i / 3, i % 3))
  }

  /** The bits of the last sextet that belong to no byte. */
  function TrailingBits(d: seq<sextet>): nat {
    if |d| % 4 == 2 then d[|d| - 1] % 16
    else if |d| % 4 == 3 then d[|d| - 1] % 4
    else 0
  }

  /** Position size * g + r lies in group g. */
  lemma InGroup(g: nat, size: nat, r: nat)
    requires r < size
    ensures (size * g + r) / size == g && (size * g + r) % size == r
  {
    QuotientIs(size * g + r, size, g, r);
  }

  lemma GroupOfBytes(a: byte, b: byte, c: byte)
    ensures High(First(a), Second(a, b)) == a && Middle(Second(a, b), Third(b, c)) == b
            && Low(Third(b, c), Fourth(c)) == c
  {
  }

  lemma GroupOfSextets(s: sextet, t: sextet, u: sextet, v: sextet)
    ensures First(High(s, t)) == s && Second(High(s, t), Middle(t, u)) == t
    ensures Third(Middle(t, u), Low(u, v)) == u && Fourth(Low(u, v)) == v
  {
  }

  lemma AtSextets(x: seq<byte>, g: nat, r: nat)
    requires r < 4 && 4 * g + r < |Sextets(x)|
    ensures At(Sextets(x), 4 * g + r) == SextetIn(x, g, r)
  {
    InGroup(g, 4, r);
  }

  lemma ByteAtOctets(d: seq<sextet>, g: nat, r: nat)
    requires r < 3 && 3 * g + r < |Octets(d)|
    ensures ByteAt(Octets(d), 3 * g + r) == OctetIn(d, g, r)
  {
    InGroup(g, 3, r);
  }

  /** A byte at position 3g + r has the sextets 4g + r and 4g + r + 1. */
  lemma SextetsReach(n: nat, g: nat, r: nat)
    requires 3 * g + r < n
    ensures (4 * n + 2) / 3 >= 4 * g + r + 2
  {
    var spare := n - (3 * g + r + 1);
    assert 4 * n + 2 == 3 * (4 * g + r + 2) + (r + 4 * spare);
  }

  /** The two sextets that hold byte r of group g. */
  lemma SextetsAround(x: seq<byte>, g: nat, r: nat)
    requires r < 3 && 3 * g + r < |x|
    ensures At(Sextets(x), 4 * g + r) == SextetIn(x, g, r) && At(Sextets(x), 4 * g + r + 1) == SextetIn(x, g, r + 1)
  {
    SextetsReach(|x|, g, r);
    AtSextets(x, g, r);
    AtSextets(x, g, r + 1);
  }

  lemma OctetOfGroup(s: seq<sextet>, a: byte, b: byte, c: byte, r: nat)
    requires |s| == 4 && r < 3 && s[r] == Sextet(a, b, c, r) && s[r + 1] == Sextet(a, b, c, r + 1)
    ensures Octet(s[0], s[1], s[2], s[3], r) == [a, b, c][r]
  {
    GroupOfBytes(a, b, c);
  }

  lemma ByteOfGroup(x: seq<byte>, g: nat, r: nat)
    requires r < 3
    ensures ByteAt(x, 3 * g + r) == [ByteAt(x, 3 * g), ByteAt(x, 3 * g + 1), ByteAt(x, 3 * g + 2)][r]
  {
  }

  lemma AtOfGroup(d: seq<sextet>, g: nat, r: nat)
    requires r < 4
    ensures At(d, 4 * g + r) == Group(d, g)[r]
  {
  }

  function Group(d: seq<sextet>, g: nat): seq<sextet> {
    [At(d, 4 * g), At(d, 4 * g + 1), At(d, 4 * g + 2), At(d, 4 * g + 3)]
  }

  lemma OctetInOfSextets(x: seq<byte>, g: nat, r: nat)
    requires r < 3 && 3 * g + r < |x|
    ensures OctetIn(Sextets(x), g, r) == ByteAt(x, 3 * g + r)
  {
    SextetsAround(x, g, r);
    AtOfGroup(Sextets(x), g, r);
    AtOfGroup(Sextets(x), g, r + 1);
    OctetOfGroup(Group(Sextets(x), g), ByteAt(x, 3 * g), ByteAt(x, 3 * g + 1), ByteAt(x, 3 * g + 2), r);
    ByteOfGroup(x, g, r);
  }

  lemma OctetsOfSextets(x: seq<byte>)
    ensures Octets(Sextets(x)) == x
  {
    assert |Octets(Sextets(x))| == |x|;
    forall i | 0 <= i < |x| ensures Octets(Sextets(x))[i] == x[i] {
      assert i == 3 * (i / 3) + i % 3;
      OctetInOfSextets(x, i / 3, i % 3);
    }
  }

  lemma SextetsShape(x: seq<byte>)
    ensures |Sextets(x)| % 4 != 1 && TrailingBits(Sextets(x)) == 0
  {
    var g := |x| / 3;
    if |x| % 3 == 1 {
      assert |Sextets(x)| == 4 * g + 2;
      AtSextets(x, g, 1);
    } else if |x| % 3 == 2 {
      assert |Sextets(x)| == 4 * g + 3;
      AtSextets(x, g, 2);
    }
  }

  /** When no bits trail, a byte that is not there would have been zero. */
  lemma ByteAtOfOctets(d: seq<sextet>, g: nat, r: nat)
    requires |d| % 4 != 1 && TrailingBits(d) == 0 && 4 * g < |d| && r < 3
    ensures ByteAt(Octets(d), 3 * g + r) == OctetIn(d, g, r)
  {
    if 3 * g + r < |Octets(d)| {
      ByteAtOctets(d, g, r);
    } else if |d| % 4 == 2 {
      assert |d| == 4 * g + 2 && At(d, 4 * g + 1) % 16 == 0;
    } else {
      assert |d| == 4 * g + 3 && At(d, 4 * g + 2) % 4 == 0;
    }
  }

  lemma BytesOfGroup(d: seq<sextet>, g: nat)
    requires |d| % 4 != 1 && TrailingBits(d) == 0 && 4 * g < |d|
    ensures ByteAt(Octets(d), 3 * g) == High(At(d, 4 * g), At(d, 4 * g + 1))
    ensures ByteAt(Octets(d), 3 * g + 1) == Middle(At(d, 4 * g + 1), At(d, 4 * g + 2))
    ensures ByteAt(Octets(d), 3 * g + 2) == Low(At(d, 4 * g + 2), At(d, 4 * g + 3))
  {
    ByteAtOfOctets(d, g, 0);
    ByteAtOfOctets(d, g, 1);
    ByteAtOfOctets(d, g, 2);
  }

  lemma SextetOfGroup(s: sextet, t: sextet, u: sextet, v: sextet, r: nat)
    requires r < 4
    ensures Sextet(High(s, t), Middle(t, u), Low(u, v), r) == [s, t, u, v][r]
  {
    GroupOfSextets(s, t, u, v);
  }

  lemma SextetInOfOctets(d: seq<sextet>, g: nat, r: nat)
    requires |d| % 4 != 1 && TrailingBits(d) == 0 && r < 4 && 4 * g + r < |d|
    ensures SextetIn(Octets(d), g, r) == At(d, 4 * g + r)
  {
    BytesOfGroup(d, g);
    var s, t, u, v := At(d, 4 * g), At(d, 4 * g + 1), At(d, 4 * g + 2), At(d, 4 * g + 3);
    SextetOfGroup(s, t, u, v, r);
    AtOfGroup(d, g, r);
  }

  lemma SextetsOfOctetsSize(d: seq<sextet>)
    requires |d| % 4 != 1
    ensures |Sextets(Octets(d))| == |d|
  {
  }

  lemma SextetsOfOctetsAt(d: seq<sextet>, s: seq<sextet>, j: nat)
    requires |d| % 4 != 1 && TrailingBits(d) == 0 && s == Sextets(Octets(d)) && j < |d| == |s|
    ensures s[j] == d[j]
  {
    SextetInOfOctets(d, j / 4, j % 4);
  }

  lemma SextetsOfOctets(d: seq<sextet>)
    requires |d| % 4 != 1 && TrailingBits(d) == 0
    ensures Sextets(Octets(d)) == d
  {
    var s := Sextets(Octets(d));
    SextetsOfOctetsSize(d);
    forall j | 0 <= j < |d| ensures s[j] == d[j] {
      SextetsOfOctetsAt(d, s, j);
    }
  }

  function Chars(d: seq<sextet>): string {
    seq(|d|, i requires 0 <= i < |d| => Digit(d[i]))
  }

  predicate InAlphabet(s: string) {
    forall c | c in s :: DigitValue(c).Some?
  }

  function ValueOf(c: char): sextet
    requires DigitValue(c).Some?
  {
    DigitValueRoundTrip(c);
    DigitValue(c).value
  }

  function Values(s: string): seq<sextet>
    requires InAlphabet(s)
  {
    seq(|s|, i requires 0 <= i < |s| => assert s[i] in s; ValueOf(s[i]))
  }

  lemma ValuesOfChars(d: seq<sextet>)
    ensures InAlphabet(Chars(d)) && Values(Chars(d)) == d
  {
    forall i | 0 <= i < |d| ensures DigitValue(Chars(d)[i]) == Some(d[i]) {
      DigitRoundTrip(d[i]);
    }
  }

  lemma CharsOfValues(s: string)
    requires InAlphabet(s)
    ensures Chars(Values(s)) == s
  {
    forall i | 0 <= i < |s| ensures Chars(Values(s))[i] == s[i] {
      assert s[i] in s;
      DigitValueRoundTrip(s[i]);
    }
  }

  function Encoded(x: seq<byte>): string {
    Chars(Sextets(x))
  }

  function Decoded(s: string): seq<byte>
    requires InAlphabet(s)
  {
    Octets(Values(s))
  }

  /** What base64url_decode checks before it re-encodes. */
  predicate Canonical(s: string) {
    s != "" && |s| % 4 != 1 && InAlphabet(s) && TrailingBits(Values(s)) == 0
  }

  // ---------- the encoding bit by bit ----------

  /** The characters from first on, so many of them. */
  function Characters(first: char, count: nat): string
    requires first as int + count < 0xD800
  {
    seq(count, i requires 0 <= i < count => (first as int + i) as char)
  }

  /** A to Z, a to z, 0 to 9, minus, underscore. */
  const ALPHABET: string := Characters('A', 26) + Characters('a', 26) + Characters('0', 10) + "-_"

  lemma DigitIsLetter(v: nat)
    requires v < 64
    ensures |ALPHABET| == 64 && Digit(v) == ALPHABET[v]
  {
  }

  /** Bit i of a byte string, counted from the highest of its first byte; zero beyond its end. */
  function StreamBit(x: seq<byte>, i: nat): nat {
    BitAt(ByteAt(x, i / 8), 7 - i % 8)
  }

  /** The number n bits denote, from bit i on. */
  function StreamBits(x: seq<byte>, i: nat, n: nat): nat
    decreases n, x, i
  {
    if n == 0 then 0 else 2 * StreamBits(x, i, n - 1) + StreamBit(x, i + n - 1)
  }

  lemma TwoBitsMore(x: seq<byte>, i: nat, n: nat, m: nat)
    requires m == n + 2
    ensures StreamBits(x, i, m) == 4 * StreamBits(x, i, n) + StreamBits(x, i + n, 2)
  {
    assert StreamBits(x, i, n + 1) == 2 * StreamBits(x, i, n) + StreamBit(x, i + n);
    assert StreamBits(x, i + n, 1) == 2 * StreamBits(x, i + n, 0) + StreamBit(x, i + n);
  }

  lemma ThreePairs(x: seq<byte>, i: nat, u: nat, v: nat, w: nat)
    requires StreamBits(x, i, 2) == u && StreamBits(x, i + 2, 2) == v && StreamBits(x, i + 4, 2) == w
    ensures StreamBits(x, i, 6) == 16 * u + 4 * v + w
  {
    TwoBitsMore(x, i, 2, 4);
    TwoBitsMore(x, i, 4, 6);
  }

  /** Bits k + 1 and k of a byte. */
  function Pair(b: byte, k: nat): nat {
    2 * BitAt(b, k + 1) + BitAt(b, k)
  }

  lemma LowestPair(b: byte, k: nat)
    ensures b == 4 * (b / 4) + Pair(b, 0) && Pair(b, 0) < 4
    ensures Pair(b, k + 2) == Pair(b / 4, k)
  {
    assert b / 2 / 2 == b / 4;
    assert BitAt(b, 1) == b / 2 % 2 && BitAt(b, 0) == b % 2;
    assert BitAt(b, k + 2) == BitAt(b / 2, k + 1) == BitAt(b / 2 / 2, k);
    assert BitAt(b, k + 3) == BitAt(b / 2, k + 2) == BitAt(b / 2 / 2, k + 1);
  }

  lemma TwoLowestPairs(b: byte, c: byte, k: nat)
    requires c == b / 16
    ensures b == 16 * c + 4 * Pair(b, 2) + Pair(b, 0) && Pair(b, 2) < 4 && Pair(b, 0) < 4
    ensures Pair(b, k + 4) == Pair(c, k)
  {
    LowestPair(b, 0);
    LowestPair(b, k + 2);
    LowestPair(b / 4, k);
    assert b / 4 / 4 == c;
  }

  /** A byte is its four pairs of bits. */
  lemma FourPairs(b: byte)
    ensures b == 64 * Pair(b, 6) + 16 * Pair(b, 4) + 4 * Pair(b, 2) + Pair(b, 0)
    ensures Pair(b, 6) < 4 && Pair(b, 4) < 4 && Pair(b, 2) < 4 && Pair(b, 0) < 4
  {
    var c: byte := b / 16;
    TwoLowestPairs(b, c, 0);
    TwoLowestPairs(b, c, 2);
    TwoLowestPairs(c, 0, 0);
  }

  lemma FirstPairs(a: byte)
    ensures First(a) == 16 * Pair(a, 6) + 4 * Pair(a, 4) + Pair(a, 2)
  {
    FourPairs(a);
    QuotientIs(a, 4, 16 * Pair(a, 6) + 4 * Pair(a, 4) + Pair(a, 2), Pair(a, 0));
  }

  lemma SecondPairs(a: byte, b: byte)
    ensures Second(a, b) == 16 * Pair(a, 0) + 4 * Pair(b, 6) + Pair(b, 4)
  {
    FourPairs(a);
    FourPairs(b);
    QuotientIs(a, 4, 16 * Pair(a, 6) + 4 * Pair(a, 4) + Pair(a, 2), Pair(a, 0));
    QuotientIs(b, 16, 4 * Pair(b, 6) + Pair(b, 4), 4 * Pair(b, 2) + Pair(b, 0));
  }

  lemma ThirdPairs(b: byte, c: byte)
    ensures Third(b, c) == 16 * Pair(b, 2) + 4 * Pair(b, 0) + Pair(c, 6)
  {
    FourPairs(b);
    FourPairs(c);
    QuotientIs(b, 16, 4 * Pair(b, 6) + Pair(b, 4), 4 * Pair(b, 2) + Pair(b, 0));
    QuotientIs(c, 64, Pair(c, 6), 16 * Pair(c, 4) + 4 * Pair(c, 2) + Pair(c, 0));
  }

  lemma FourthPairs(c: byte)
    ensures Fourth(c) == 16 * Pair(c, 4) + 4 * Pair(c, 2) + Pair(c, 0)
  {
    FourPairs(c);
    QuotientIs(c, 64, Pair(c, 6), 16 * Pair(c, 4) + 4 * Pair(c, 2) + Pair(c, 0));
  }

  /** Two bits of byte m of group g. */
  lemma PairInGroup(x: seq<byte>, g: nat, m: nat, k: nat, i: nat)
    requires k < 7 && i == 24 * g + 8 * m + (6 - k)
    ensures StreamBits(x, i, 2) == Pair(ByteAt(x, 3 * g + m), k)
  {
    assert StreamBits(x, i, 1) == 2 * StreamBits(x, i, 0) + StreamBit(x, i);
    QuotientIs(i, 8, 3 * g + m, 6 - k);
    QuotientIs(i + 1, 8, 3 * g + m, 7 - k);
  }

  lemma SixBitsFirst(x: seq<byte>, g: nat, i: nat)
    requires i == 24 * g
    ensures StreamBits(x, i, 6) == First(ByteAt(x, 3 * g))
  {
    var a := ByteAt(x, 3 * g);
    FirstPairs(a);
    PairInGroup(x, g, 0, 6, i);
    PairInGroup(x, g, 0, 4, i + 2);
    PairInGroup(x, g, 0, 2, i + 4);
    ThreePairs(x, i, Pair(a, 6), Pair(a, 4), Pair(a, 2));
  }

  lemma SixBitsSecond(x: seq<byte>, g: nat, i: nat)
    requires i == 24 * g + 6
    ensures StreamBits(x, i, 6) == Second(ByteAt(x, 3 * g), ByteAt(x, 3 * g + 1))
  {
    var a, b := ByteAt(x, 3 * g), ByteAt(x, 3 * g + 1);
    SecondPairs(a, b);
    PairInGroup(x, g, 0, 0, i);
    PairInGroup(x, g, 1, 6, i + 2);
    PairInGroup(x, g, 1, 4, i + 4);
    ThreePairs(x, i, Pair(a, 0), Pair(b, 6), Pair(b, 4));
  }

  lemma SixBitsThird(x: seq<byte>, g: nat, i: nat)
    requires i == 24 * g + 12
    ensures StreamBits(x, i, 6) == Third(ByteAt(x, 3 * g + 1), ByteAt(x, 3 * g + 2))
  {
    var b, c := ByteAt(x, 3 * g + 1), ByteAt(x, 3 * g + 2);
    ThirdPairs(b, c);
    PairInGroup(x, g, 1, 2, i);
    PairInGroup(x, g, 1, 0, i + 2);
    PairInGroup(x, g, 2, 6, i + 4);
    ThreePairs(x, i, Pair(b, 2), Pair(b, 0), Pair(c, 6));
  }

  lemma SixBitsFourth(x: seq<byte>, g: nat, i: nat)
    requires i == 24 * g + 18
    ensures StreamBits(x, i, 6) == Fourth(ByteAt(x, 3 * g + 2))
  {
    var c := ByteAt(x, 3 * g + 2);
    FourthPairs(c);
    PairInGroup(x, g, 2, 4, i);
    PairInGroup(x, g, 2, 2, i + 2);
    PairInGroup(x, g, 2, 0, i + 4);
    ThreePairs(x, i, Pair(c, 4), Pair(c, 2), Pair(c, 0));
  }

  lemma SextetInIsSixBits(x: seq<byte>, g: nat, r: nat, i: nat)
    requires r < 4 && i == 24 * g + 6 * r
    ensures StreamBits(x, i, 6) == SextetIn(x, g, r)
  {
    if r == 0 {
      SixBitsFirst(x, g, i);
    } else if r == 1 {
      SixBitsSecond(x, g, i);
    } else if r == 2 {
      SixBitsThird(x, g, i);
    } else {
      SixBitsFourth(x, g, i);
    }
  }

  /** Section 5 of RFC 4648 without padding: character j of the text is the letter at the position that bits 6j to 6j +
      5 denote, and the text ends with the last bit. */
  ghost predicate Spells(s: string, x: seq<byte>) {
    |s| == (8 * |x| + 5) / 6 && forall j | 0 <= j < |s| :: LetterAt(s, x, j)
  }

  ghost predicate LetterAt(s: string, x: seq<byte>, j: nat)
    requires j < |s|
  {
    StreamBits(x, 6 * j, 6) < |ALPHABET| && s[j] == ALPHABET[StreamBits(x, 6 * j, 6)]
  }

  lemma EncodedAt(x: seq<byte>, j: nat)
    requires j < |Encoded(x)|
    ensures LetterAt(Encoded(x), x, j)
  {
    SextetInIsSixBits(x, j / 4, j % 4, 6 * j);
    DigitIsLetter(StreamBits(x, 6 * j, 6));
  }

  /** The encoding is the one text that spells the bytes. */
  lemma EncodedSpells(x: seq<byte>, s: string)
    ensures s == Encoded(x) <==> Spells(s, x)
  {
    assert |Encoded(x)| == (8 * |x| + 5) / 6;
    forall j | 0 <= j < |Encoded(x)| ensures LetterAt(Encoded(x), x, j) {
      EncodedAt(x, j);
    }
    if Spells(s, x) {
      forall j | 0 <= j < |s| ensures s[j] == Encoded(x)[j] {
        assert LetterAt(s, x, j) && LetterAt(Encoded(x), x, j);
      }
    }
  }

  lemma EncodedIsCanonical(x: seq<byte>)
    ensures InAlphabet(Encoded(x)) && Decoded(Encoded(x)) == x && |Encoded(x)| == (4 * |x| + 2) / 3
    ensures x != [] ==> Canonical(Encoded(x))
  {
    OctetsOfSextets(x);
    SextetsShape(x);
    ValuesOfChars(Sextets(x));
  }

  lemma CanonicalIsEncoded(s: string)
    requires Canonical(s)
    ensures Decoded(s) != [] && Encoded(Decoded(s)) == s
  {
    SextetsOfOctets(Values(s));
    CharsOfValues(s);
  }

  /** The alphabet, length and trailing-bit checks accept exactly the encodings of non-empty byte strings. */
  lemma CanonicalIff(s: string)
    ensures Canonical(s) <==> exists x: seq<byte> :: x != [] && Encoded(x) == s
  {
    if Canonical(s) {
      CanonicalIsEncoded(s);
    }
    if x: seq<byte> :| x != [] && Encoded(x) == s {
      EncodedIsCanonical(x);
    }
  }

  // ---------- base64url_encode ----------

  /** (buffer >> shift) & 63. */
  function Window(buffer: nat, shift: nat): sextet {
    Quotient(buffer, Pow2(shift)) % 64
  }

  /** The sextets the inner loop takes from an accumulator with that many pending bits, highest first. */
  function Emitted(buffer: nat, bits: nat): seq<sextet> {
    if bits < 6 then [] else [Window(buffer, bits - 6)] + Emitted(buffer, bits - 6)
  }

  lemma WindowOfLow(w: nat, s: nat, total: nat)
    requires s + 6 <= total
    ensures Window(w, s) == Window(w % Pow2(total), s)
  {
    Pow2Values();
    WindowLow(w, s, 6);
    WindowLow(w % Pow2(total), s, 6);
    ModLow(w, s + 6, total);
  }

  lemma {:induction false} EmittedLow(w: nat, bits: nat, total: nat)
    requires bits <= total
    ensures Emitted(w, bits) == Emitted(w % Pow2(total), bits)
  {
    if bits >= 6 {
      EmittedLow(w, bits - 6, total);
      WindowOfLow(w, bits - 6, total);
    }
  }

  lemma EmittedValues(v: nat)
    ensures Emitted(v, 8) == [v / 4 % 64]
    ensures Emitted(v, 10) == [v / 16 % 64]
    ensures Emitted(v, 12) == [v / 64 % 64, v % 64]
  {
    Pow2Values();
    assert Emitted(v, 6) == [v % 64];
  }

  /** The sextets complete once the bytes of p are in. */
  function Started(p: seq<byte>): seq<sextet> {
    seq(4 * |p| / 3, j requires 0 <= j => SextetIn(p, j / 4, j % 4))
  }

  function LeftoverBits(n: nat): nat {
    2 * (n % 3)
  }

  /** The bits of the last byte not yet part of a sextet. */
  function Leftover(p: seq<byte>): nat {
    if |p| % 3 == 0 then 0 else if |p| % 3 == 1 then p[|p| - 1] % 4 else p[|p| - 1] % 16
  }

  lemma SplitByte(l: nat, b: byte)
    ensures (l * 256 + b) / 16 == l * 16 + b / 16 && (l * 256 + b) % 16 == b % 16
    ensures (l * 256 + b) / 64 == l * 4 + b / 64 && (l * 256 + b) % 64 == b % 64
  {
    QuotientIs(l * 256 + b, 16, l * 16 + b / 16, b % 16);
    QuotientIs(l * 256 + b, 64, l * 4 + b / 64, b % 64);
  }

  /** Sextets already complete do not change when a byte follows. */
  lemma StartedPrefix(p: seq<byte>, q: seq<byte>)
    requires p <= q
    ensures Started(p) <= Started(q)
  {
    forall j | 0 <= j < |Started(p)| ensures SextetIn(p, j / 4, j % 4) == SextetIn(q, j / 4, j % 4) {
    }
  }

  lemma StartedAt(p: seq<byte>, g: nat, r: nat)
    requires r < 4 && 4 * g + r < |Started(p)|
    ensures Started(p)[4 * g + r] == SextetIn(p, g, r)
  {
    InGroup(g, 4, r);
  }

  lemma OneMore<T>(s: seq<T>, t: seq<T>, x: T)
    requires s <= t && |t| == |s| + 1 && t[|s|] == x
    ensures t == s + [x]
  {
  }

  lemma TwoMore<T>(s: seq<T>, t: seq<T>, x: T, y: T)
    requires s <= t && |t| == |s| + 2 && t[|s|] == x && t[|s| + 1] == y
    ensures t == s + [x, y]
  {
  }

  lemma StartedLength(p: seq<byte>, g: nat)
    ensures |p| == 3 * g ==> |Started(p)| == 4 * g
    ensures |p| == 3 * g + 1 ==> |Started(p)| == 4 * g + 1
    ensures |p| == 3 * g + 2 ==> |Started(p)| == 4 * g + 2
    ensures |p| == 3 * g + 3 ==> |Started(p)| == 4 * g + 4
  {
  }

  // What one more byte completes, by its position in the group.

  lemma FirstByte(p: seq<byte>, b: byte, g: nat)
    requires |p| == 3 * g
    ensures Started(p + [b]) == Started(p) + [First(b)]
  {
    var q := p + [b];
    StartedPrefix(p, q);
    StartedLength(p, g);
    StartedLength(q, g);
    StartedAt(q, g, 0);
    OneMore(Started(p), Started(q), First(b));
  }

  lemma SecondByte(p: seq<byte>, b: byte, g: nat)
    requires |p| == 3 * g + 1
    ensures Started(p + [b]) == Started(p) + [Second(p[3 * g], b)]
  {
    var q := p + [b];
    StartedPrefix(p, q);
    StartedLength(p, g);
    StartedLength(q, g);
    StartedAt(q, g, 1);
    OneMore(Started(p), Started(q), Second(p[3 * g], b));
  }

  lemma ThirdByte(p: seq<byte>, b: byte, g: nat)
    requires |p| == 3 * g + 2
    ensures Started(p + [b]) == Started(p) + [Third(p[3 * g + 1], b), Fourth(b)]
  {
    var q := p + [b];
    StartedPrefix(p, q);
    StartedLength(p, g);
    StartedLength(q, g);
    StartedAt(q, g, 2);
    StartedAt(q, g, 3);
    TwoMore(Started(p), Started(q), Third(p[3 * g + 1], b), Fourth(b));
  }

  // What the inner loop takes out are those sextets.

  lemma EmitsFirst(b: byte)
    ensures Emitted(b, 8) == [First(b)]
  {
    EmittedValues(b);
  }

  lemma EmitsSecond(a: byte, b: byte)
    ensures Emitted(a % 4 * 256 + b, 10) == [Second(a, b)]
  {
    var l: nat := a % 4;
    EmittedValues(l * 256 + b);
    SplitByte(l, b);
    QuotientIs(l * 16 + b / 16, 64, 0, l * 16 + b / 16);
  }

  lemma EmitsThird(a: byte, b: byte)
    ensures Emitted(a % 16 * 256 + b, 12) == [Third(a, b), Fourth(b)]
  {
    var l: nat := a % 16;
    EmittedValues(l * 256 + b);
    SplitByte(l, b);
    QuotientIs(l * 4 + b / 64, 64, 0, l * 4 + b / 64);
  }

  lemma StartedStep(p: seq<byte>, b: byte, g: nat, r: nat)
    requires |p| == 3 * g + r && r < 3
    ensures Started(p + [b]) == Started(p) + Emitted(Leftover(p) * 256 + b, 2 * r + 8)
  {
    LeftoverIs(p, g, r);
    if r == 0 {
      FirstByte(p, b, g);
      EmitsFirst(b);
    } else if r == 1 {
      SecondByte(p, b, g);
      EmitsSecond(p[3 * g], b);
    } else {
      ThirdByte(p, b, g);
      EmitsThird(p[3 * g + 1], b);
    }
  }

  lemma LeftoverIs(p: seq<byte>, g: nat, r: nat)
    requires |p| == 3 * g + r && r < 3
    ensures Leftover(p) == if r == 0 then 0 else if r == 1 then p[3 * g] % 4 else p[3 * g + 1] % 16
  {
    InGroup(g, 3, r);
  }

  lemma LeftoverBitsStep(n: nat)
    ensures (LeftoverBits(n) + 8) % 6 == LeftoverBits(n + 1)
  {
    var g, r := n / 3, n % 3;
    if r == 2 {
      QuotientIs(n + 1, 3, g + 1, 0);
    } else {
      QuotientIs(n + 1, 3, g, r + 1);
    }
  }

  lemma LeftoverStep(p: seq<byte>, b: byte)
    ensures Leftover(p + [b]) == (Leftover(p) * 256 + b) % Pow2(LeftoverBits(|p| + 1))
  {
    SplitByte(Leftover(p), b);
    Pow2Values();
  }

  lemma StepEmits(p: seq<byte>, b: byte, buffer: uint32)
    requires buffer % Pow2(LeftoverBits(|p|)) == Leftover(p)
    ensures Started(p + [b]) == Started(p) + Emitted((buffer * 256 + b) % WORD, LeftoverBits(|p|) + 8)
  {
    var bits, w := LeftoverBits(|p|), (buffer * 256 + b) % WORD;
    StepShifts(p, b, buffer);
    EmittedLow(w, bits + 8, bits + 8);
    StartedStep(p, b, |p| / 3, |p| % 3);
  }

  /** The pending bits with the new byte shifted in, although the word wraps. */
  lemma StepShifts(p: seq<byte>, b: byte, buffer: uint32)
    requires buffer % Pow2(LeftoverBits(|p|)) == Leftover(p)
    ensures (buffer * 256 + b) % WORD % Pow2(LeftoverBits(|p|) + 8) == Leftover(p) * 256 + b
  {
    assert Pow2(8) == 256 by {
      Pow2Values();
    }
    ShiftIn(buffer, b, 8, LeftoverBits(|p|));
  }

  lemma StepLeaves(p: seq<byte>, b: byte, buffer: uint32)
    requires buffer % Pow2(LeftoverBits(|p|)) == Leftover(p)
    ensures (buffer * 256 + b) % WORD % Pow2(LeftoverBits(|p| + 1)) == Leftover(p + [b])
  {
    StepShifts(p, b, buffer);
    ModLow((buffer * 256 + b) % WORD, LeftoverBits(|p| + 1), LeftoverBits(|p|) + 8);
    LeftoverStep(p, b);
  }

  lemma CharsAppend(d: seq<sextet>, e: seq<sextet>)
    ensures Chars(d + e) == Chars(d) + Chars(e)
  {
  }

  ghost predicate StillToEmit(goal: string, output: string, buffer: uint32, bits: nat) {
    goal == output + Chars(Emitted(buffer, bits))
  }

  lemma EmitOne(goal: string, sofar: string, buffer: uint32, bits: nat)
    requires bits >= 6 && StillToEmit(goal, sofar, buffer, bits)
    ensures StillToEmit(goal, sofar + [Digit(Window(buffer, bits - 6))], buffer, bits - 6)
  {
    CharsAppend([Window(buffer, bits - 6)], Emitted(buffer, bits - 6));
  }

  /** The inner loop of base64url_encode. */
  method EmitDigits(sofar: string, buffer: uint32, pending: nat) returns (output: string, bits: nat)
    ensures output == sofar + Chars(Emitted(buffer, pending)) && bits == pending % 6
  {
    output := sofar;
    bits := pending;
    ghost var goal := sofar + Chars(Emitted(buffer, pending));
    ghost var taken: nat := 0;
    while bits >= 6
      invariant StillToEmit(goal, output, buffer, bits)
      invariant pending == 6 * taken + bits
    {
      EmitOne(goal, output, buffer, bits);
      bits, taken := bits - 6, taken + 1;
      output := output + [Digit(Window(buffer, bits))];
    }
    QuotientIs(pending, 6, taken, bits);
  }

  lemma StartedIsPrefix(x: seq<byte>)
    ensures |Started(x)| <= |Sextets(x)| ==> Started(x) <= Sextets(x)
  {
  }

  lemma EndsWhole(x: seq<byte>, g: nat)
    requires |x| == 3 * g
    ensures Sextets(x) == Started(x)
  {
    StartedLength(x, g);
    StartedIsPrefix(x);
  }

  lemma EndsAfterOne(x: seq<byte>, g: nat)
    requires |x| == 3 * g + 1
    ensures Sextets(x) == Started(x) + [Leftover(x) * 16]
  {
    StartedLength(x, g);
    StartedIsPrefix(x);
    AtSextets(x, g, 1);
    LeftoverIs(x, g, 1);
    assert SextetIn(x, g, 1) == Second(x[3 * g], 0);
    OneMore(Started(x), Sextets(x), Leftover(x) * 16);
  }

  lemma EndsAfterTwo(x: seq<byte>, g: nat)
    requires |x| == 3 * g + 2
    ensures Sextets(x) == Started(x) + [Leftover(x) * 4]
  {
    StartedLength(x, g);
    StartedIsPrefix(x);
    AtSextets(x, g, 2);
    LeftoverIs(x, g, 2);
    assert SextetIn(x, g, 2) == Third(x[3 * g + 1], 0);
    OneMore(Started(x), Sextets(x), Leftover(x) * 4);
  }

  lemma SextetsEnd(x: seq<byte>, g: nat)
    ensures |x| == 3 * g ==> Sextets(x) == Started(x)
    ensures |x| == 3 * g + 1 ==> Sextets(x) == Started(x) + [Leftover(x) * 16]
    ensures |x| == 3 * g + 2 ==> Sextets(x) == Started(x) + [Leftover(x) * 4]
  {
    if |x| == 3 * g {
      EndsWhole(x, g);
    } else if |x| == 3 * g + 1 {
      EndsAfterOne(x, g);
    } else if |x| == 3 * g + 2 {
      EndsAfterTwo(x, g);
    }
  }

  /** The sextet that carries the leftover bits, padded with zeros. */
  lemma LastSextet(x: seq<byte>, buffer: uint32)
    requires |x| % 3 != 0 && buffer % Pow2(LeftoverBits(|x|)) == Leftover(x)
    ensures var bits := LeftoverBits(|x|);
            bits < 6 && Sextets(x) == Started(x) + [(buffer * Pow2(6 - bits)) % WORD % 64]
  {
    var bits := LeftoverBits(|x|);
    ShiftIn(buffer, 0, 6 - bits, bits);
    Pow2Values();
    SextetsEnd(x, |x| / 3);
  }

  /** What the outer loop has made of the bytes p. */
  predicate Encoding(p: seq<byte>, output: string, buffer: uint32, bits: nat) {
    output == Chars(Started(p)) && bits == LeftoverBits(|p|) && buffer % Pow2(bits) == Leftover(p)
  }

  /** One byte through the accumulator. */
  lemma EncodeStep(p: seq<byte>, b: byte, output: string, buffer: uint32)
    requires Encoding(p, output, buffer, LeftoverBits(|p|))
    ensures var w := (buffer * 256 + b) % WORD;
            Encoding(p + [b], output + Chars(Emitted(w, LeftoverBits(|p|) + 8)), w, (LeftoverBits(|p|) + 8) % 6)
  {
    StepEmits(p, b, buffer);
    StepLeaves(p, b, buffer);
    LeftoverBitsStep(|p|);
    CharsAppend(Started(p), Emitted((buffer * 256 + b) % WORD, LeftoverBits(|p|) + 8));
  }

  /** The body of the outer loop of base64url_encode. */
  method EncodeByte(b: byte, sofar: string, word: uint32, pending: nat, ghost p: seq<byte>)
      returns (output: string, buffer: uint32, bits: nat)
    requires Encoding(p, sofar, word, pending)
    ensures Encoding(p + [b], output, buffer, bits)
  {
    EncodeStep(p, b, sofar, word);
    buffer := (word * 256 + b) % WORD;
    output, bits := EmitDigits(sofar, buffer, pending + 8);
  }

  /** The outer loop of base64url_encode. */
  method EncodeBytes(input: seq<byte>) returns (output: string, buffer: uint32, bits: nat)
    ensures Encoding(input, output, buffer, bits)
  {
    output, buffer, bits := "", 0, 0;
    var i := 0;
    while i < |input|
      invariant 0 <= i <= |input|
      invariant Encoding(input[..i], output, buffer, bits)
    {
      output, buffer, bits := EncodeByte(input[i], output, buffer, bits, input[..i]);
      assert input[..i + 1] == input[..i] + [input[i]];
      i := i + 1;
    }
    assert input[..i] == input;
  }

  /** base64url_encode. */
  method Base64UrlEncode(input: seq<byte>) returns (output: string)
    ensures output == Encoded(input)
  {
    var buffer, bits;
    output, buffer, bits := EncodeBytes(input);
    if bits != 0 {
      LastSextet(input, buffer);
      var last := (buffer * Pow2(6 - bits)) % WORD % 64;
      CharsAppend(Started(input), [last]);
      output := output + [Digit(last)];
    } else {
      SextetsEnd(input, |input| / 3);
    }
  }

  // ---------- base64url_decode ----------

  function PendingBits(n: nat): nat {
    if n % 4 == 0 then 0 else 8 - 2 * (n % 4)
  }

  /** The bits of the last sextet not yet part of a byte. */
  function Pending(d: seq<sextet>): nat {
    if |d| % 4 == 0 then 0
    else if |d| % 4 == 1 then d[|d| - 1]
    else if |d| % 4 == 2 then d[|d| - 1] % 16
    else d[|d| - 1] % 4
  }

  lemma PendingBitsStep(n: nat)
    ensures var bits := PendingBits(n) + 6; PendingBits(n + 1) == if bits >= 8 then bits - 8 else bits
  {
  }

  lemma OctetsPrefix(d: seq<sextet>, e: seq<sextet>)
    requires d <= e
    ensures Octets(d) <= Octets(e)
  {
    forall i | 0 <= i < |Octets(d)| ensures OctetIn(d, i / 3, i % 3) == OctetIn(e, i / 3, i % 3) {
    }
  }

  lemma OctetsLength(d: seq<sextet>, g: nat)
    ensures |d| == 4 * g || |d| == 4 * g + 1 ==> |Octets(d)| == 3 * g
    ensures |d| == 4 * g + 2 ==> |Octets(d)| == 3 * g + 1
    ensures |d| == 4 * g + 3 ==> |Octets(d)| == 3 * g + 2
    ensures |d| == 4 * g + 4 ==> |Octets(d)| == 3 * g + 3
  {
  }

  // What one more sextet completes, by its position in the group.

  lemma SecondSextet(d: seq<sextet>, v: sextet, g: nat)
    requires |d| == 4 * g + 1
    ensures Octets(d + [v]) == Octets(d) + [High(d[4 * g], v)]
  {
    var e := d + [v];
    OctetsPrefix(d, e);
    OctetsLength(d, g);
    OctetsLength(e, g);
    ByteAtOctets(e, g, 0);
    OneMore(Octets(d), Octets(e), High(d[4 * g], v));
  }

  lemma ThirdSextet(d: seq<sextet>, v: sextet, g: nat)
    requires |d| == 4 * g + 2
    ensures Octets(d + [v]) == Octets(d) + [Middle(d[4 * g + 1], v)]
  {
    var e := d + [v];
    OctetsPrefix(d, e);
    OctetsLength(d, g);
    OctetsLength(e, g);
    ByteAtOctets(e, g, 1);
    OneMore(Octets(d), Octets(e), Middle(d[4 * g + 1], v));
  }

  lemma FourthSextet(d: seq<sextet>, v: sextet, g: nat)
    requires |d| == 4 * g + 3
    ensures Octets(d + [v]) == Octets(d) + [Low(d[4 * g + 2], v)]
  {
    var e := d + [v];
    OctetsPrefix(d, e);
    OctetsLength(d, g);
    OctetsLength(e, g);
    ByteAtOctets(e, g, 2);
    OneMore(Octets(d), Octets(e), Low(d[4 * g + 2], v));
  }

  lemma SplitSextet(l: nat, v: sextet)
    ensures (l * 64 + v) / 16 == l * 4 + v / 16 && (l * 64 + v) % 16 == v % 16
    ensures (l * 64 + v) / 4 == l * 16 + v / 4 && (l * 64 + v) % 4 == v % 4
  {
    QuotientIs(l * 64 + v, 16, l * 4 + v / 16, v % 16);
    QuotientIs(l * 64 + v, 4, l * 16 + v / 4, v % 4);
  }

  lemma PendingStep(d: seq<sextet>, v: sextet)
    ensures Pending(d + [v]) == (Pending(d) * 64 + v) % Pow2(PendingBits(|d| + 1))
  {
    SplitSextet(Pending(d), v);
    Pow2Values();
  }

  /** The byte that leaves the accumulator, from the sextet before and the new one. */
  lemma EmittedByte(a: sextet, v: sextet)
    ensures Quotient((a as int) * 64 + v, Pow2(4)) == High(a, v)
    ensures Quotient((a as int) % 16 * 64 + v, Pow2(2)) == Middle(a, v)
    ensures Quotient((a as int) % 4 * 64 + v, Pow2(0)) == Low(a, v)
  {
    SplitSextet(a, v);
    SplitSextet((a as int) % 16, v);
    Pow2Values();
  }

  lemma PendingByte(d: seq<sextet>, v: sextet)
    requires |d| % 4 != 0
    ensures Octets(d + [v]) == Octets(d) + [Quotient(Pending(d) * 64 + v, Pow2(PendingBits(|d|) - 2))]
  {
    var g := |d| / 4;
    EmittedByte(d[|d| - 1], v);
    if |d| % 4 == 1 {
      SecondSextet(d, v, g);
    } else if |d| % 4 == 2 {
      ThirdSextet(d, v, g);
    } else {
      FourthSextet(d, v, g);
    }
  }

  lemma SextetShifts(d: seq<sextet>, v: sextet, buffer: uint32)
    requires buffer % Pow2(PendingBits(|d|)) == Pending(d)
    ensures (buffer * 64 + v) % WORD % Pow2(PendingBits(|d|) + 6) == Pending(d) * 64 + v
  {
    assert Pow2(6) == 64 by {
      Pow2Values();
    }
    ShiftIn(buffer, v, 6, PendingBits(|d|));
  }

  lemma SextetEmits(d: seq<sextet>, v: sextet, w: uint32)
    requires w % Pow2(PendingBits(|d|) + 6) == Pending(d) * 64 + v
    ensures var bits := PendingBits(|d|) + 6;
            Octets(d + [v]) == Octets(d) + if bits >= 8 then [Quotient(w, Pow2(bits - 8)) % 256] else []
  {
    if |d| % 4 == 0 {
      OctetsPrefix(d, d + [v]);
      OctetsLength(d, |d| / 4);
      OctetsLength(d + [v], |d| / 4);
    } else {
      PendingByte(d, v);
      WindowLow(w, PendingBits(|d|) - 2, 8);
      assert Pow2(8) == 256 by {
        Pow2Values();
      }
    }
  }

  /** One sextet through the accumulator. */
  lemma DecodeStep(d: seq<sextet>, v: sextet, buffer: uint32)
    requires buffer % Pow2(PendingBits(|d|)) == Pending(d)
    ensures var w, bits := (buffer * 64 + v) % WORD, PendingBits(|d|) + 6;
            && PendingBits(|d| + 1) == (if bits >= 8 then bits - 8 else bits)
            && Octets(d + [v]) == Octets(d) + (if bits >= 8 then [Quotient(w, Pow2(bits - 8)) % 256] else [])
            && w % Pow2(PendingBits(|d| + 1)) == Pending(d + [v])
  {
    var w := (buffer * 64 + v) % WORD;
    SextetShifts(d, v, buffer);
    SextetEmits(d, v, w);
    PendingBitsStep(|d|);
    ModLow(w, PendingBits(|d| + 1), PendingBits(|d|) + 6);
    PendingStep(d, v);
  }

  /** The first i characters are digits, and these are their values. */
  ghost predicate DigitsUpTo(s: string, i: nat, d: seq<sextet>)
    requires i <= |s|
  {
    |d| == i && InAlphabet(s[..i]) && Values(s[..i]) == d
  }

  lemma OneDigitMore(s: string, i: nat, d: seq<sextet>)
    requires i < |s| && DigitsUpTo(s, i, d) && DigitValue(s[i]).Some?
    ensures DigitValue(s[i]).value < 64 && DigitsUpTo(s, i + 1, d + [DigitValue(s[i]).value])
  {
    DigitValueRoundTrip(s[i]);
    OneFurther(s, i);
  }

  lemma AllDigits(s: string, i: nat, d: seq<sextet>)
    requires i == |s| && DigitsUpTo(s, i, d)
    ensures InAlphabet(s) && Values(s) == d
  {
    assert s[..i] == s;
  }

  /** Bytes, accumulator and bit count after the digits d. */
  ghost predicate Decoding(d: seq<sextet>, bytes: seq<byte>, buffer: uint32, bits: nat) {
    bytes == Octets(d) && bits == PendingBits(|d|) && buffer % Pow2(bits) == Pending(d)
  }

  lemma DecodeFirst()
    ensures Decoding([], [], 0, 0)
  {
  }

  lemma DecodeOne(d: seq<sextet>, v: sextet, bytes: seq<byte>, buffer: uint32, bits: nat)
    requires Decoding(d, bytes, buffer, bits)
    ensures var w, more := (buffer * 64 + v) % WORD, bits + 6;
            if more < 8 then Decoding(d + [v], bytes, w, more)
            else Decoding(d + [v], bytes + [Quotient(w, Pow2(more - 8)) % 256], w, more - 8)
  {
    DecodeStep(d, v, buffer);
    NothingAround(bytes);
  }

  /** The loop of base64url_decode; None at the first character outside the alphabet. */
  method DecodeDigits(input: string) returns (decoded: Option<seq<byte>>, buffer: uint32, bits: nat)
    ensures decoded.Some? <==> InAlphabet(input)
    ensures decoded.Some? ==> decoded.value == Decoded(input)
    ensures decoded.Some? ==> bits == PendingBits(|input|) && buffer % Pow2(bits) == Pending(Values(input))
  {
    var bytes: seq<byte> := [];
    buffer, bits := 0, 0;
    var i := 0;
    ghost var d: seq<sextet> := [];
    DecodeFirst();
    while i < |input|
      invariant 0 <= i <= |input| && DigitsUpTo(input, i, d)
      invariant Decoding(d, bytes, buffer, bits)
    {
      var value := DigitValue(input[i]);
      if value.None? {
        assert input[i] in input;
        return None, buffer, bits;
      }
      OneDigitMore(input, i, d);
      DecodeOne(d, value.value, bytes, buffer, bits);
      d := d + [value.value];
      buffer := (buffer * 64 + value.value) % WORD;
      bits := bits + 6;
      if bits >= 8 {
        bits := bits - 8;
        bytes := bytes + [Quotient(buffer, Pow2(bits)) % 256];
      }
      i := i + 1;
    }
    AllDigits(input, i, d);
    decoded := Some(bytes);
  }

  /** base64url_decode accepts exactly the encodings of non-empty byte strings, and inverts encoding. */
  method Base64UrlDecode(input: string) returns (r: Option<seq<byte>>)
    ensures r == if Canonical(input) then Some(Decoded(input)) else None
    ensures r.Some? <==> exists x: seq<byte> :: x != [] && Encoded(x) == input
    ensures r.Some? ==> r.value != [] && Encoded(r.value) == input
  {
    CanonicalIff(input);
    if input == "" || |input| % 4 == 1 {
      return None;
    }
    var decoded, buffer, bits := DecodeDigits(input);
    if decoded.None? {
      return None;
    }
    var reencoded := Base64UrlEncode(decoded.value);
    if (bits != 0 && buffer % Pow2(bits) != 0) || reencoded != input {
      if Canonical(input) {
        CanonicalIsEncoded(input);
      }
      return None;
    }
    return decoded;
  }

  /** The re-encoding test rejects nothing the other checks accept. */
  lemma ReencodingRejectsNothingMore(s: string)
    requires s != "" && |s| % 4 != 1 && InAlphabet(s)
    ensures TrailingBits(Values(s)) == 0 <==> Encoded(Decoded(s)) == s
  {
    if TrailingBits(Values(s)) == 0 {
      CanonicalIsEncoded(s);
    } else if Encoded(Decoded(s)) == s {
      EncodedIsCanonical(Decoded(s));
    }
  }
}
