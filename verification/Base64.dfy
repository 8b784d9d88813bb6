/** source/base64.c: encoding and decoding (section 4 of RFC 4648). */
module Base64 {
  import opened Bytes

  const PAD: byte := 61

  /** pr2six */
  function Six(c: byte): nat {
    if 65 <= c <= 90 then c - 65
    else if 97 <= c <= 122 then c - 71
    else if 48 <= c <= 57 then c + 4
    else if c == 43 then 62
    else if c == 47 then 63
    else 64
  }

  /** basis_64 */
  function Basis(v: nat): (c: byte)
    requires v < 64
    ensures Six(c) == v
  {
    if v < 26 then v + 65 else if v < 52 then v + 71 else if v < 62 then v - 4 else if v == 62 then 43 else 47
  }

  // ---- encoding ----

  // The four characters for three bytes a, b and c.

  function Char1(a: byte): byte { Basis(a / 4) }

  function Char2(a: byte, b: byte): byte { Basis(a % 4 * 16 + b / 16) }

  function Char3(b: byte, c: byte): byte { Basis(b % 16 * 4 + c / 64) }

  function Char4(c: byte): byte { Basis(c % 64) }

  /** The text of s: three bytes at a time, then one or two bytes with padding. */
  function Encoded(s: bytes): bytes {
    if |s| >= 3 then
      [Char1(s[0]), Char2(s[0], s[1]), Char3(s[1], s[2]), Char4(s[2])] + Encoded(s[3..])
    else if |s| == 2 then [Char1(s[0]), Char2(s[0], s[1]), Char3(s[1], 0), PAD]
    else if |s| == 1 then [Char1(s[0]), Char2(s[0], 0), PAD, PAD]
    else []
  }

  /** Base64encode_len */
  function EncodeLen(len: nat): nat {
    (len + 2) / 3 * 4 + 1
  }

  lemma {:induction false} EncodedLength(s: bytes)
    ensures |Encoded(s)| + 1 == EncodeLen(|s|)
    decreases |s|
  {
    hide Char1, Char2, Char3, Char4;
    if |s| >= 3 {
      EncodedLength(s[3..]);
    }
  }

  /** One character is stored, and the pointer moves on; nothing from end on changes. */
  method Put(a: array<byte>, p: nat, c: byte, ghost end: nat) returns (next: nat)
    requires p < end <= a.Length
    modifies a
    ensures next == p + 1 && a[..p + 1] == old(a[..p]) + [c]
    ensures a[end..] == old(a[end..])
  {
    a[p] := c;
    next := p + 1;
  }

  /** Three bytes at i, as four characters. */
  method PutFour(encoded: array<byte>, p: nat, s: bytes, i: nat, ghost end: nat) returns (next: nat)
    requires i + 2 < |s| && p + 4 < end <= encoded.Length
    modifies encoded
    ensures next == p + 4 && encoded[..next] == old(encoded[..p]) + Four(s, i)
    ensures encoded[end..] == old(encoded[end..])
  {
    next := Put(encoded, p, Char1(s[i]), end);
    next := Put(encoded, next, Char2(s[i], s[i + 1]), end);
    next := Put(encoded, next, Char3(s[i + 1], s[i + 2]), end);
    next := Put(encoded, next, Char4(s[i + 2]), end);
    hide Char1, Char2, Char3, Char4;
  }

  /** The one or two bytes left over at i, with padding. */
  method PutLast(encoded: array<byte>, p: nat, s: bytes, i: nat, ghost end: nat) returns (next: nat)
    requires |s| - 2 <= i < |s| && p + 4 < end <= encoded.Length
    modifies encoded
    ensures next == p + 4 && encoded[..next] == old(encoded[..p]) + Encoded(s[i..])
    ensures encoded[end..] == old(encoded[end..])
  {
    hide Char1, Char2, Char3, Char4, Encoded;
    LastEncoded(s, i);
    next := Put(encoded, p, Char1(s[i]), end);
    if i == |s| - 1 {
      next := Put(encoded, next, Char2(s[i], 0), end);
      next := Put(encoded, next, PAD, end);
    } else {
      next := Put(encoded, next, Char2(s[i], s[i + 1]), end);
      next := Put(encoded, next, Char3(s[i + 1], 0), end);
    }
    next := Put(encoded, next, PAD, end);
  }

  /** There is room for what is still to come. */
  lemma RoomLeft(len: nat, i: nat, p: nat)
    requires i <= len && 3 * p == 4 * i
    ensures i < len ==> p + 4 < EncodeLen(len)
    ensures p < EncodeLen(len)
    ensures len - 2 <= i < len ==> p + 4 == EncodeLen(len) - 1
    ensures i == len ==> p == EncodeLen(len) - 1
  {
  }

  /** Base64encode: the text, a terminating zero, and the number of characters with it. */
  method Encode(encoded: array<byte>, s: bytes) returns (n: nat)
    requires encoded.Length >= EncodeLen(|s|)
    modifies encoded
    ensures n == EncodeLen(|s|) && encoded[..n] == Encoded(s) + [0]
    ensures encoded[n..] == old(encoded[n..])
  {
    hide Encoded, Four, EncodeLen;
    ghost var end := EncodeLen(|s|);
    var i, p: nat := 0, 0;
    assert s[0..] == s;
    while i < |s| - 2
      invariant 0 <= i <= |s| && 3 * p == 4 * i && p <= encoded.Length
      invariant encoded[..p] + Encoded(s[i..]) == Encoded(s)
      invariant encoded[end..] == old(encoded[end..])
    {
      RoomLeft(|s|, i, p);
      GroupEncoded(s, i);
      p := PutFour(encoded, p, s, i, end);
      i := i + 3;
    }
    RoomLeft(|s|, i, p);
    if i < |s| {
      p := PutLast(encoded, p, s, i, end);
    } else {
      LastEncoded(s, i);
    }
    n := Put(encoded, p, 0, end);
  }

  /** The characters for three bytes at i. */
  function Four(s: bytes, i: nat): bytes
    requires i + 2 < |s|
  {
    [Char1(s[i]), Char2(s[i], s[i + 1]), Char3(s[i + 1], s[i + 2]), Char4(s[i + 2])]
  }

  lemma LastEncoded(s: bytes, i: nat)
    requires |s| - 2 <= i <= |s|
    ensures i == |s| ==> Encoded(s[i..]) == []
    ensures i == |s| - 1 ==> Encoded(s[i..]) == [Char1(s[i]), Char2(s[i], 0), PAD, PAD]
    ensures i == |s| - 2 ==>
              Encoded(s[i..]) == [Char1(s[i]), Char2(s[i], s[i + 1]), Char3(s[i + 1], 0), PAD]
  {
    hide Char1, Char2, Char3, Char4;
  }

  lemma GroupEncoded(s: bytes, i: nat)
    requires i + 2 < |s|
    ensures Encoded(s[i..]) == Four(s, i) + Encoded(s[i + 3..])
  {
    hide Char1, Char2, Char3, Char4;
    assert s[i..][3..] == s[i + 3..];
  }

  // ---- decoding ----

  /** The end of the characters of the alphabet from i on; the text ends with a zero. */
  function TextEnd(t: bytes, i: nat): (e: nat)
    requires i <= |t|
    ensures i <= e <= |t|
    decreases |t| - i
  {
    if i < |t| && Six(t[i]) <= 63 then TextEnd(t, i + 1) else i
  }

  /** All characters of t belong to the alphabet. */
  predicate InAlphabet(t: bytes) {
    forall k | 0 <= k < |t| :: Six(t[k]) <= 63
  }

  /** The bytes that the characters t write, four at a time; the last four, or fewer, may be incomplete, and
      a single character left over writes nothing. */
  function Decoded(t: bytes): bytes
    requires InAlphabet(t)
  {
    if |t| > 4 then Triple(t[0], t[1], t[2], t[3]) + Decoded(t[4..])
    else
      (if |t| > 1 then [First(t[0], t[1])] else [])
      + (if |t| > 2 then [Second(t[1], t[2])] else [])
      + (if |t| > 3 then [Third(t[2], t[3])] else [])
  }

  function First(a: byte, b: byte): byte { (Six(a) * 4 + Six(b) / 16) % 256 }

  function Second(b: byte, c: byte): byte { (Six(b) * 16 + Six(c) / 4) % 256 }

  function Third(c: byte, d: byte): byte { (Six(c) * 64 + Six(d)) % 256 }

  function Triple(a: byte, b: byte, c: byte, d: byte): bytes {
    [First(a, b), Second(b, c), Third(c, d)]
  }

  function DecodeLen(t: bytes): nat {
    (TextEnd(t, 0) + 3) / 4 * 3 + 1
  }

  lemma {:induction false} TextValid(t: bytes, i: nat, k: nat)
    requires i <= k < TextEnd(t, 0) && i <= |t| && TextEnd(t, i) == TextEnd(t, 0)
    ensures k < |t| && Six(t[k]) <= 63
    decreases k - i
  {
    if i < k {
      TextValid(t, i + 1, k);
    }
  }

  /** The characters that are decoded. */
  function Text(t: bytes): (u: bytes)
    ensures |u| == TextEnd(t, 0) && InAlphabet(u)
  {
    assert forall k | 0 <= k < TextEnd(t, 0) :: Six(t[k]) <= 63 by {
      forall k | 0 <= k < TextEnd(t, 0) ensures Six(t[k]) <= 63 {
        TextValid(t, 0, k);
      }
    }
    t[..TextEnd(t, 0)]
  }

  /** For any text the number of bytes, and the terminating zero, fit the announced length. */
  lemma {:induction false} DecodedLength(t: bytes)
    requires InAlphabet(t)
    ensures |Decoded(t)| == (|t| + 3) / 4 * 3 - (4 - (if |t| == 0 then 4 else (|t| - 1) % 4 + 1))
    decreases |t|
  {
    if |t| > 4 {
      DecodedLength(t[4..]);
    }
  }

  /** Base64decode_len */
  method DecodedLen(t: bytes) returns (n: nat)
    ensures n == DecodeLen(t) && |Decoded(Text(t))| < n
  {
    var end := ScanText(t);
    n := (end + 3) / 4 * 3 + 1;
    DecodedLength(Text(t));
  }

  method ScanText(t: bytes) returns (end: nat)
    ensures end == TextEnd(t, 0)
  {
    end := 0;
    while end < |t| && Six(t[end]) <= 63
      invariant end <= |t| && TextEnd(t, end) == TextEnd(t, 0)
    {
      end := end + 1;
    }
  }

  lemma GroupDecoded(u: bytes, i: nat)
    requires i + 4 < |u| && InAlphabet(u)
    ensures InAlphabet(u[i..]) && InAlphabet(u[i + 4..])
    ensures Decoded(u[i..]) == Triple(u[i], u[i + 1], u[i + 2], u[i + 3]) + Decoded(u[i + 4..])
  {
    assert u[i..][4..] == u[i + 4..];
    hide Triple;
  }

  lemma RestDecoded(t: bytes, i: nat, n: nat)
    requires n <= 4 && i + n <= |t| && InAlphabet(t[i..i + n])
    ensures Decoded(t[i..i + n])
         == (if n > 1 then [First(t[i], t[i + 1])] else []) + (if n > 2 then [Second(t[i + 1], t[i + 2])] else [])
            + (if n > 3 then [Third(t[i + 2], t[i + 3])] else [])
  {
    hide First, Second, Third;
  }

  /** Four characters at i, as three bytes. */
  method PutTriple(plain: array<byte>, p: nat, t: bytes, i: nat, ghost end: nat) returns (next: nat)
    requires i + 4 <= |t| && p + 3 < end <= plain.Length
    modifies plain
    ensures next == p + 3 && plain[..next] == old(plain[..p]) + Triple(t[i], t[i + 1], t[i + 2], t[i + 3])
    ensures plain[end..] == old(plain[end..])
  {
    hide First, Second, Third;
    next := Put(plain, p, First(t[i], t[i + 1]), end);
    next := Put(plain, next, Second(t[i + 1], t[i + 2]), end);
    next := Put(plain, next, Third(t[i + 2], t[i + 3]), end);
  }

  /** The last characters, at most four. */
  method PutRest(plain: array<byte>, p: nat, t: bytes, i: nat, n: nat, ghost end: nat) returns (next: nat)
    requires n <= 4 && i + n <= |t| && InAlphabet(t[i..i + n]) && p + |Decoded(t[i..i + n])| < end <= plain.Length
    modifies plain
    ensures next == p + (if n == 0 then 0 else n - 1) && plain[..next] == old(plain[..p]) + Decoded(t[i..i + n])
    ensures plain[end..] == old(plain[end..])
  {
    hide First, Second, Third, InAlphabet;
    RestDecoded(t, i, n);
    hide Decoded;
    next := p;
    if n > 1 {
      next := Put(plain, next, First(t[i], t[i + 1]), end);
    }
    if n > 2 {
      next := Put(plain, next, Second(t[i + 1], t[i + 2]), end);
    }
    if n > 3 {
      next := Put(plain, next, Third(t[i + 2], t[i + 3]), end);
    }
  }

  /** The loop over all groups of four characters but the last. */
  method PutTriples(plain: array<byte>, t: bytes, n: nat) returns (i: nat, out: nat, nprbytes: nat)
    requires n == TextEnd(t, 0) && |Decoded(Text(t))| < plain.Length
    modifies plain
    ensures i + nprbytes == n && nprbytes <= 4 && CountLeft(n, nprbytes, out, i) && out <= plain.Length
    ensures InAlphabet(Text(t)[i..]) && plain[..out] + Decoded(Text(t)[i..]) == Decoded(Text(t))
    ensures plain[|Decoded(Text(t))| + 1..] == old(plain[|Decoded(Text(t))| + 1..])
  {
    hide Decoded, InAlphabet, Triple, TextEnd, Text;
    ghost var u := Text(t);
    ghost var end := |Decoded(u)| + 1;
    assert u[0..] == u;
    DecodedLength(u);
    TextIs(t);
    i, out, nprbytes := 0, 0, n;
    while nprbytes > 4
      invariant i + nprbytes == n && 4 * out == 3 * i && i % 4 == 0 && (i > 0 ==> nprbytes > 0)
      invariant InAlphabet(u[i..]) && plain[..out] + Decoded(u[i..]) == Decoded(u)
      invariant plain[end..] == old(plain[end..])
    {
      GroupDecoded(u, i);
      out := PutTriple(plain, out, t, i, end);
      i, nprbytes := i + 4, nprbytes - 4;
    }
    CountIsLeft(n, nprbytes, out, i);
  }

  lemma TextIs(t: bytes)
    ensures |Text(t)| == TextEnd(t, 0) <= |t| && InAlphabet(Text(t))
    ensures forall k | 0 <= k < |Text(t)| :: Text(t)[k] == t[k]
  {
    hide InAlphabet;
  }

  /** The result of the program's count of bytes. */
  predicate CountLeft(total: nat, left: nat, out: nat, i: nat) {
    (total + 3) / 4 * 3 - (4 - left) % 4 == out + (if left == 0 then 0 else left - 1)
  }

  lemma CountIsLeft(total: nat, left: nat, out: nat, i: nat)
    requires i + left == total && 4 * out == 3 * i && i % 4 == 0 && left <= 4 && (i > 0 ==> left > 0)
    ensures CountLeft(total, left, out, i)
  {
  }

  /** Base64decode, for any input: the bytes, a terminating zero, and the number of bytes before it. */
  method Decode(plain: array<byte>, t: bytes) returns (n: int)
    requires plain.Length >= DecodeLen(t)
    modifies plain
    ensures n == |Decoded(Text(t))| < DecodeLen(t) && plain[..n + 1] == Decoded(Text(t)) + [0]
    ensures plain[n + 1..] == old(plain[n + 1..])
  {
    hide *;
    ghost var end := |Decoded(Text(t))| + 1;
    TextIs(t);
    RoomFor(t);
    var nprbytes := ScanText(t);
    ghost var total := nprbytes;
    var nbytesdecoded := (nprbytes + 3) / 4 * 3;
    var i, out;
    i, out, nprbytes := PutTriples(plain, t, nprbytes);
    RestOfText(t, i, nprbytes);
    CountIs(total, nprbytes, out, i);
    RestLength(t, i, nprbytes);
    out := PutRest(plain, out, t, i, nprbytes, end);
    n := nbytesdecoded - (4 - nprbytes) % 4;
    assert plain[..n] == Decoded(Text(t));
    out := Put(plain, out, 0, end);
  }

  lemma RoomFor(t: bytes)
    ensures |Decoded(Text(t))| < DecodeLen(t)
  {
    DecodedLength(Text(t));
    hide Decoded, InAlphabet, TextEnd, Text;
  }

  lemma CountIs(total: nat, left: nat, out: nat, i: nat)
    requires CountLeft(total, left, out, i)
    ensures (total + 3) / 4 * 3 - (4 - left) % 4 == out + (if left == 0 then 0 else left - 1)
  {
  }

  lemma RestLength(t: bytes, i: nat, left: nat)
    requires left <= 4 && i + left <= |t| && InAlphabet(t[i..i + left])
    ensures |Decoded(t[i..i + left])| == if left == 0 then 0 else left - 1
  {
    RestDecoded(t, i, left);
    hide Decoded, InAlphabet, First, Second, Third;
  }

  lemma RestOfText(t: bytes, i: nat, left: nat)
    requires i + left == TextEnd(t, 0)
    ensures i + left <= |t| && Text(t)[i..] == t[i..i + left]
  {
    TextIs(t);
    hide TextEnd, Text;
  }

  // ---- round trip ----

  lemma GroupRoundTrip(a: byte, b: byte, c: byte)
    ensures First(Char1(a), Char2(a, b)) == a
    ensures Second(Char2(a, b), Char3(b, c)) == b
    ensures Third(Char3(b, c), Char4(c)) == c
  {
    CharSixes(a, b, c);
    hide Char1, Char2, Char3, Char4, Six;
    FirstHalf(a, b / 16);
    SecondHalf(a % 4, b, c / 64);
    ThirdHalf(b % 16, c);
  }

  lemma CharSixes(a: byte, b: byte, c: byte)
    ensures Six(Char1(a)) == a / 4 && Six(Char2(a, b)) == a % 4 * 16 + b / 16
    ensures Six(Char3(b, c)) == b % 16 * 4 + c / 64 && Six(Char4(c)) == c % 64
  {
    hide Basis, Six;
  }

  lemma FirstHalf(a: byte, x: nat)
    requires x < 16
    ensures (a / 4 * 4 + (a % 4 * 16 + x) / 16) % 256 == a
  {
  }

  lemma QuotientOfFour(k: nat, y: nat)
    requires y < 4
    ensures (k * 4 + y) / 4 == k
  {
  }

  lemma LowByte(x: nat, b: byte)
    ensures (x * 256 + b) % 256 == b
  {
  }

  lemma SecondHalf(x: nat, b: byte, y: nat)
    requires x < 4 && y < 4
    ensures ((x * 16 + b / 16) * 16 + (b % 16 * 4 + y) / 4) % 256 == b
  {
    var high, low := b / 16, b % 16;
    assert b == high * 16 + low;
    QuotientOfFour(low, y);
    assert (x * 16 + high) * 16 + low == x * 256 + b;
    LowByte(x, b);
  }

  lemma ThirdHalf(x: nat, c: byte)
    requires x < 16
    ensures ((x * 4 + c / 64) * 64 + c % 64) % 256 == c
  {
    assert (x * 4 + c / 64) * 64 + c % 64 == x * 256 + c;
  }

  /** The text of s without its padding. */
  function Unpadded(s: bytes): bytes {
    if |s| >= 3 then Four(s, 0) + Unpadded(s[3..])
    else if |s| == 2 then [Char1(s[0]), Char2(s[0], s[1]), Char3(s[1], 0)]
    else if |s| == 1 then [Char1(s[0]), Char2(s[0], 0)]
    else []
  }

  function Padding(n: nat): (p: bytes)
  {
    if n % 3 == 1 then [PAD, PAD] else if n % 3 == 2 then [PAD] else []
  }

  lemma {:induction false} EncodedParts(s: bytes)
    ensures Encoded(s) == Unpadded(s) + Padding(|s|) && InAlphabet(Unpadded(s))
    decreases |s|
  {
    hide *;
    if |s| >= 3 {
      EncodedParts(s[3..]);
      assert s[0..] == s;
      GroupEncoded(s, 0);
      UnpaddedStep(s);
      PaddingStep(|s|);
      BasisAlphabet(s);
      AlphabetJoins(Four(s, 0), Unpadded(s[3..]));
      assert Four(s, 0) + (Unpadded(s[3..]) + Padding(|s| - 3)) == Four(s, 0) + Unpadded(s[3..]) + Padding(|s| - 3);
    } else {
      ShortParts(s);
    }
  }

  lemma ShortParts(s: bytes)
    requires |s| < 3
    ensures Encoded(s) == Unpadded(s) + Padding(|s|) && InAlphabet(Unpadded(s))
  {
    hide Char1, Char2, Char3, Char4, Six, InAlphabet;
    if |s| == 2 {
      assert Unpadded(s) == [Char1(s[0]), Char2(s[0], s[1]), Char3(s[1], 0)];
      assert Padding(2) == [PAD];
      ShortAlphabet(s[0], s[1]);
    } else if |s| == 1 {
      assert Unpadded(s) == [Char1(s[0]), Char2(s[0], 0)];
      assert Padding(1) == [PAD, PAD];
      ShortAlphabet(s[0], 0);
    } else {
      assert Unpadded(s) == [] && Padding(0) == [];
      assert InAlphabet([]) by { EmptyAlphabet(); }
    }
  }

  lemma EmptyAlphabet()
    ensures InAlphabet([])
  {
  }

  lemma ShortAlphabet(a: byte, b: byte)
    ensures InAlphabet([Char1(a), Char2(a, b), Char3(b, 0)]) && InAlphabet([Char1(a), Char2(a, b)])
  {
    CharSixes(a, b, 0);
    hide Char1, Char2, Char3, Char4, Six;
  }

  lemma UnpaddedStep(s: bytes)
    requires |s| >= 3
    ensures Unpadded(s) == Four(s, 0) + Unpadded(s[3..])
  {
    hide Four;
  }

  lemma PaddingStep(n: nat)
    requires n >= 3
    ensures Padding(n) == Padding(n - 3)
  {
  }

  lemma AlphabetJoins(a: bytes, b: bytes)
    requires InAlphabet(a) && InAlphabet(b)
    ensures InAlphabet(a + b)
  {
    hide Six;
  }

  lemma BasisAlphabet(s: bytes)
    requires |s| >= 3
    ensures InAlphabet(Four(s, 0))
  {
    CharSixes(s[0], s[1], s[2]);
    hide Char1, Char2, Char3, Char4, Six;
  }

  lemma {:induction false} TextOfParts(u: bytes, rest: bytes, i: nat)
    requires InAlphabet(u) && i <= |u| && (rest == [] || Six(rest[0]) > 63)
    ensures TextEnd(u + rest, i) == |u|
    decreases |u| - i
  {
    if i < |u| {
      assert (u + rest)[i] == u[i];
      TextOfParts(u, rest, i + 1);
    } else if rest != [] {
      assert (u + rest)[i] == rest[0];
    }
    hide Six;
  }

  lemma {:induction false} UnpaddedTrip(s: bytes)
    ensures InAlphabet(Unpadded(s)) && Decoded(Unpadded(s)) == s
    decreases |s|
  {
    EncodedParts(s);
    if |s| >= 3 {
      UnpaddedTrip(s[3..]);
      ThreeTrip(s);
    } else {
      ShortTrip(s);
    }
    hide Decoded, Unpadded;
  }

  lemma ThreeTrip(s: bytes)
    requires |s| >= 3 && InAlphabet(Unpadded(s)) && InAlphabet(Unpadded(s[3..])) && Decoded(Unpadded(s[3..])) == s[3..]
    ensures Decoded(Unpadded(s)) == s
  {
    hide *;
    var u, v := Unpadded(s), Unpadded(s[3..]);
    UnpaddedStep(s);
    FourAt(u, v, s);
    TripleTrip(s[0], s[1], s[2]);
    assert [s[0], s[1], s[2]] + s[3..] == s;
    assert u[0..] == u;
    if |v| == 0 {
      assert s[3..] == [] by { NothingUnpadded(s[3..]); }
      assert u[0..0 + 4] == u;
      FourDecoded(u);
    } else {
      GroupDecoded(u, 0);
    }
  }

  lemma FourAt(u: bytes, v: bytes, s: bytes)
    requires |s| >= 3 && u == Four(s, 0) + v
    ensures |u| == 4 + |v| && u[4..] == v
    ensures u[0] == Char1(s[0]) && u[1] == Char2(s[0], s[1]) && u[2] == Char3(s[1], s[2]) && u[3] == Char4(s[2])
  {
    hide Char1, Char2, Char3, Char4;
  }

  lemma TripleTrip(a: byte, b: byte, c: byte)
    ensures Triple(Char1(a), Char2(a, b), Char3(b, c), Char4(c)) == [a, b, c]
  {
    GroupRoundTrip(a, b, c);
    hide First, Second, Third, Char1, Char2, Char3, Char4;
  }

  lemma FourDecoded(u: bytes)
    requires |u| == 4 && InAlphabet(u)
    ensures Decoded(u) == Triple(u[0], u[1], u[2], u[3])
  {
    hide First, Second, Third, InAlphabet;
  }

  lemma NothingUnpadded(s: bytes)
    requires |Unpadded(s)| == 0
    ensures s == []
  {
    hide Char1, Char2, Char3, Char4;
  }

  lemma ShortTrip(s: bytes)
    requires |s| < 3 && InAlphabet(Unpadded(s))
    ensures Decoded(Unpadded(s)) == s
  {
    if |s| == 2 {
      TwoTrip(s);
    } else if |s| == 1 {
      OneTrip(s);
    }
    hide Char1, Char2, Char3, Char4, First, Second, Third, Six;
  }

  lemma TwoTrip(s: bytes)
    requires |s| == 2 && InAlphabet(Unpadded(s))
    ensures Decoded(Unpadded(s)) == s
  {
    hide *;
    GroupRoundTrip(s[0], s[1], 0);
    var u := Unpadded(s);
    TwoUnpadded(s);
    assert u[0..0 + 3] == u;
    RestDecoded(u, 0, 3);
  }

  lemma TwoUnpadded(s: bytes)
    requires |s| == 2
    ensures Unpadded(s) == [Char1(s[0]), Char2(s[0], s[1]), Char3(s[1], 0)]
  {
    hide Char1, Char2, Char3, Char4;
  }

  lemma OneTrip(s: bytes)
    requires |s| == 1 && InAlphabet(Unpadded(s))
    ensures Decoded(Unpadded(s)) == s
  {
    hide Char1, Char2, Char3, Char4, First, Second, Third, InAlphabet;
    GroupRoundTrip(s[0], 0, 0);
    var u := Unpadded(s);
    assert u == [Char1(s[0]), Char2(s[0], 0)];
    hide Unpadded;
    assert u[0..0 + 2] == u;
    RestDecoded(u, 0, 2);
    hide Decoded;
  }

  /** Decoding what was encoded, with its padding and terminating zero and whatever follows, gives back
      every byte. */
  lemma RoundTrip(s: bytes, rest: bytes)
    ensures Decoded(Text(Encoded(s) + [0] + rest)) == s
  {
    EncodedParts(s);
    var u, r := Unpadded(s), Padding(|s|) + [0] + rest;
    var t := Encoded(s) + [0] + rest;
    assert t == u + r;
    assert Six(r[0]) > 63;
    hide Encoded, Decoded, Unpadded, Padding, Six;
    TextOfParts(u, r, 0);
    assert Text(t) == u;
    UnpaddedTrip(s);
  }
}
