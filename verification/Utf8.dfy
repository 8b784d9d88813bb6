/** UTF-8 as section 3 of RFC 3629 defines it, and its agreement with skipUTF8. */
module Utf8 {
  import opened Bytes
  import opened JsonScan

  predicate IsScalarValue(cp: nat) {
    cp < 0xD800 || 0xDFFF < cp <= 0x10FFFF
  }

  function Encode(cp: nat): (t: bytes)
    requires IsScalarValue(cp)
    ensures 1 <= |t| <= 4
  {
    if cp < 0x80 then [cp]
    else if cp < 0x800 then [0xC0 + cp / 64, 0x80 + cp % 64]
    else if cp < 0x10000 then [0xE0 + cp / 4096, 0x80 + cp / 64 % 64, 0x80 + cp % 64]
    else [0xF0 + cp / 262144, 0x80 + cp / 4096 % 64, 0x80 + cp / 64 % 64, 0x80 + cp % 64]
  }

  /** The value skipUTF8MultiByte accumulates by shifts and masks for the bytes at i. */
  function MultiByteValue(b: bytes, i: nat): Option<nat>
    requires i < |b| && 0xC1 < b[i] < 0xF5
  {
    LeadByteBits(b[i]);
    var n := HighBits(b[i]);
    Trailing(b, i + 1, n - 1, b[i] % Pow2(7 - n))
  }

  /** The number of bytes a lead byte announces. */
  function Announced(c: byte): nat {
    if c < 0xE0 then 2 else if c < 0xF0 then 3 else 4
  }

  predicate TrailBytes(b: bytes, i: nat, n: nat) {
    i + n <= |b| && forall k :: i <= k < i + n ==> 0x80 <= b[k] < 0xC0
  }

  /** Horner form of the value of n trailing bytes. */
  lemma TrailingForm(b: bytes, i: nat, n: nat, value: nat)
    requires i <= |b| && 1 <= n <= 3
    decreases n
    ensures Trailing(b, i, n, value).Some? <==> TrailBytes(b, i, n)
    ensures TrailBytes(b, i, n) ==>
              Trailing(b, i, n, value).value ==
              (if n == 1 then value * 64 + (b[i] - 0x80)
               else if n == 2 then (value * 64 + (b[i] - 0x80)) * 64 + (b[i + 1] - 0x80)
               else ((value * 64 + (b[i] - 0x80)) * 64 + (b[i + 1] - 0x80)) * 64 + (b[i + 2] - 0x80))
  {
    if i < |b| && IsTrail(b[i]) {
      var next := value * 64 + b[i] % 64;
      assert b[i] % 64 == b[i] - 0x80;
      assert Trailing(b, i, n, value) == Trailing(b, i + 1, n - 1, next);
      if n == 1 {
        assert Trailing(b, i + 1, 0, next) == Some(next);
      } else {
        TrailingForm(b, i + 1, n - 1, next);
        assert TrailBytes(b, i, n) <==> TrailBytes(b, i + 1, n - 1);
      }
    } else {
      assert !TrailBytes(b, i, n);
    }
  }

  lemma LeadValue(c: byte)
    requires 0xC1 < c < 0xF5
    ensures HighBits(c) == Announced(c)
    ensures c % Pow2(7 - HighBits(c)) == (if c < 0xE0 then c - 0xC0 else if c < 0xF0 then c - 0xE0 else c - 0xF0)
  {
    LeadByteBits(c);
  }

  lemma MultiByteForm(b: bytes, i: nat)
    requires i < |b| && 0xC1 < b[i] < 0xF5
    ensures MultiByteValue(b, i).Some? <==> TrailBytes(b, i + 1, Announced(b[i]) - 1)
    ensures MultiByteValue(b, i).Some? && b[i] < 0xE0 ==>
              MultiByteValue(b, i).value == (b[i] as int - 0xC0) * 64 + (b[i + 1] as int - 0x80)
    ensures MultiByteValue(b, i).Some? && 0xE0 <= b[i] < 0xF0 ==>
              MultiByteValue(b, i).value == (b[i] as int - 0xE0) * 4096 + (b[i + 1] as int - 0x80) * 64
                + (b[i + 2] as int - 0x80)
    ensures MultiByteValue(b, i).Some? && 0xF0 <= b[i] ==>
              MultiByteValue(b, i).value ==
              (b[i] as int - 0xF0) * 262144 + (b[i + 1] as int - 0x80) * 4096 + (b[i + 2] as int - 0x80) * 64
                + (b[i + 3] as int - 0x80)
    ensures MultiByteEnd(b, i) ==
            (if MultiByteValue(b, i).Some? && ShortestUtf8(Announced(b[i]), MultiByteValue(b, i).value)
                                   then Some(i + Announced(b[i])) else None)
  {
    LeadValue(b[i]);
    TrailingForm(b, i + 1, Announced(b[i]) - 1, b[i] % Pow2(7 - HighBits(b[i])));
  }

  lemma EncodeDigits(cp: nat)
    ensures cp == cp / 64 * 64 + cp % 64
    ensures cp == cp / 4096 * 4096 + cp / 64 % 64 * 64 + cp % 64
    ensures cp == cp / 262144 * 262144 + cp / 4096 % 64 * 4096 + cp / 64 % 64 * 64 + cp % 64
  {
    assert cp / 64 / 64 == cp / 4096 && cp / 4096 / 64 == cp / 262144;
  }

  lemma AtBytes(b: bytes, i: nat, t: bytes)
    requires 1 <= |t| <= 4 && At(b, i, t)
    ensures i + |t| <= |b| && b[i] == t[0]
    ensures |t| > 1 ==> b[i + 1] == t[1]
    ensures |t| > 2 ==> b[i + 2] == t[2]
    ensures |t| > 3 ==> b[i + 3] == t[3]
  {
    assert b[i..i + |t|] == t;
    assert b[i] == b[i..i + |t|][0];
  }

  lemma EncodedBytes(b: bytes, i: nat, cp: nat)
    requires IsScalarValue(cp) && At(b, i, Encode(cp))
    ensures i + |Encode(cp)| <= |b|
    ensures cp < 0x80 ==> |Encode(cp)| == 1 && b[i] == cp
    ensures 0x80 <= cp < 0x800 ==> |Encode(cp)| == 2 && b[i] == 0xC0 + cp / 64 && b[i + 1] == 0x80 + cp % 64
    ensures 0x800 <= cp < 0x10000 ==>
              |Encode(cp)| == 3 && b[i] == 0xE0 + cp / 4096 && b[i + 1] == 0x80 + cp / 64 % 64
              && b[i + 2] == 0x80 + cp % 64
    ensures 0x10000 <= cp ==>
              && |Encode(cp)| == 4 && b[i] == 0xF0 + cp / 262144 && b[i + 1] == 0x80 + cp / 4096 % 64
              && b[i + 2] == 0x80 + cp / 64 % 64 && b[i + 3] == 0x80 + cp % 64
  {
    AtBytes(b, i, Encode(cp));
    hide At;
  }

  lemma ShortestTwo(v: nat)
    requires 0x80 <= v < 0x800
    ensures ShortestUtf8(2, v)
  {
  }

  lemma ShortestThree(v: nat)
    requires 0x800 <= v < 0x10000 && IsScalarValue(v)
    ensures ShortestUtf8(3, v)
  {
  }

  lemma ShortestFour(v: nat)
    requires 0x10000 <= v <= 0x10FFFF
    ensures ShortestUtf8(4, v)
  {
  }

  lemma LongIsSkipped(b: bytes, i: nat, cp: nat)
    requires IsScalarValue(cp) && At(b, i, Encode(cp)) && cp >= 0x80
    ensures 0xC1 < b[i] < 0xF5 && MultiByteValue(b, i) == Some(cp) && MultiByteEnd(b, i) == Some(i + |Encode(cp)|)
  {
    EncodedBytes(b, i, cp);
    hide Encode, MultiByteValue, MultiByteEnd, ShortestUtf8, At;
    EncodeDigits(cp);
    MultiByteForm(b, i);
    if cp < 0x800 {
      ShortestTwo(cp);
    } else if cp < 0x10000 {
      ShortestThree(cp);
    } else {
      ShortestFour(cp);
    }
  }

  /** A well-formed sequence is skipped exactly, and its value is the code point. */
  lemma EncodedIsSkipped(b: bytes, i: nat, cp: nat)
    requires IsScalarValue(cp) && At(b, i, Encode(cp))
    ensures Utf8End(b, i) == Some(i + |Encode(cp)|)
    ensures cp >= 0x80 ==> 0xC1 < b[i] < 0xF5 && MultiByteValue(b, i) == Some(cp)
  {
    EncodedBytes(b, i, cp);
    hide Encode, MultiByteValue, MultiByteEnd, At;
    if cp >= 0x80 {
      LongIsSkipped(b, i, cp);
    }
  }

  lemma DigitsOf(h: nat, x: nat, y: nat, z: nat)
    requires x < 64 && y < 64 && z < 64
    ensures var v := h * 64 + x; v / 64 == h && v % 64 == x
    ensures var v := h * 4096 + x * 64 + y; v / 4096 == h && v / 64 % 64 == x && v % 64 == y
    ensures var v := h * 262144 + x * 4096 + y * 64 + z;
            v / 262144 == h && v / 4096 % 64 == x && v / 64 % 64 == y && v % 64 == z
  {
  }

  lemma TwoIsEncoded(b: bytes, i: nat, cp: nat)
    requires i + 2 <= |b| && 0xC1 < b[i] < 0xE0 && TrailBytes(b, i + 1, 1)
    requires ShortestUtf8(2, cp) && cp == (b[i] as int - 0xC0) * 64 + (b[i + 1] as int - 0x80)
    ensures IsScalarValue(cp) && cp >= 0x80 && b[i..i + 2] == Encode(cp)
  {
    DigitsOf(b[i] - 0xC0, b[i + 1] - 0x80, 0, 0);
  }

  lemma ThreeIsEncoded(b: bytes, i: nat, cp: nat)
    requires i + 3 <= |b| && 0xE0 <= b[i] < 0xF0 && TrailBytes(b, i + 1, 2) && ShortestUtf8(3, cp)
    requires cp == (b[i] as int - 0xE0) * 4096 + (b[i + 1] as int - 0x80) * 64 + (b[i + 2] as int - 0x80)
    ensures IsScalarValue(cp) && cp >= 0x80 && b[i..i + 3] == Encode(cp)
  {
    DigitsOf(b[i] - 0xE0, b[i + 1] - 0x80, b[i + 2] - 0x80, 0);
  }

  lemma FourIsEncoded(b: bytes, i: nat, cp: nat)
    requires i + 4 <= |b| && 0xF0 <= b[i] < 0xF5 && TrailBytes(b, i + 1, 3) && ShortestUtf8(4, cp)
    requires cp == (b[i] as int - 0xF0) * 262144 + (b[i + 1] as int - 0x80) * 4096 + (b[i + 2] as int - 0x80) * 64
                   + (b[i + 3] as int - 0x80)
    ensures IsScalarValue(cp) && cp >= 0x80 && b[i..i + 4] == Encode(cp)
  {
    DigitsOf(b[i] - 0xF0, b[i + 1] - 0x80, b[i + 2] - 0x80, b[i + 3] - 0x80);
  }

  /** Whatever is skipped is the encoding of a Unicode scalar value. */
  lemma SkippedIsEncoded(b: bytes, i: nat) returns (cp: nat)
    requires Utf8End(b, i).Some?
    ensures IsScalarValue(cp) && At(b, i, Encode(cp)) && Utf8End(b, i).value == i + |Encode(cp)|
    ensures IsAscii(b[i]) ==> cp == b[i]
    ensures !IsAscii(b[i]) ==> cp >= 0x80
  {
    if IsAscii(b[i]) {
      cp := b[i];
      AtOne(b, i, b[i]);
    } else {
      LongRange(b, i);
      MultiByteForm(b, i);
      cp := MultiByteValue(b, i).value;
      hide MultiByteValue, MultiByteEnd, Encode, ShortestUtf8;
      if b[i] < 0xE0 {
        TwoIsEncoded(b, i, cp);
      } else if b[i] < 0xF0 {
        ThreeIsEncoded(b, i, cp);
      } else {
        FourIsEncoded(b, i, cp);
      }
    }
  }

  lemma LongRange(b: bytes, i: nat)
    requires Utf8End(b, i).Some? && !IsAscii(b[i])
    ensures 0xC1 < b[i] < 0xF5 && MultiByteEnd(b, i) == Utf8End(b, i)
  {
    hide Trailing, ShortestUtf8, HighBits;
  }

  /** skipUTF8 succeeds exactly on well-formed sequences. */
  lemma Utf8Exact(b: bytes, i: nat)
    ensures Utf8End(b, i).Some? <==> exists cp: nat :: IsScalarValue(cp) && At(b, i, Encode(cp))
  {
    if Utf8End(b, i).Some? {
      var cp := SkippedIsEncoded(b, i);
    }
    forall cp: nat | IsScalarValue(cp) && At(b, i, Encode(cp)) ensures Utf8End(b, i).Some? {
      EncodedIsSkipped(b, i, cp);
    }
  }
}
