/** Scaling a mantissa by a power of ten in source/strtod.c: 96-bit words, multipliers of 72 bits, and
    the error that the deliberately truncated products leave. */
module StrtodScale {
  import opened Double

  const B32: nat := 0x1_0000_0000
  const B40: nat := 0x100_0000_0000
  const B64: nat := 0x1_0000_0000_0000_0000
  const B72: nat := 0x100_0000_0000_0000_0000
  const B104: nat := 0x100_0000_0000_0000_0000_0000_0000

  /** w2:w1:w0 as one number. */
  function Word(w2: nat, w1: nat, w0: nat): nat {
    w2 * B64 + w1 * B32 + w0
  }

  /** A row of DecScaleTab: the multiplier (10^decExp / 2^binExp) * 2^72, negative exponents for scaling down. */
  datatype Entry = Entry(h: nat, m: nat, l: nat, decExp: nat, binExp: int)

  function Multiplier(e: Entry): nat {
    e.h * B40 + e.m * 0x100 + e.l
  }

  predicate IsEntry(e: Entry) {
    e.h < B32 && e.m < B32 && e.l < 256 && e.decExp > 0
  }

  const UP_31 := Entry(0xFC6F7C40, 0x45812296, 0x4D, 31, 103)
  const UP_3 := Entry(0xFA000000, 0, 0, 3, 10)
  const UP_1 := Entry(0xA0000000, 0, 0, 1, 4)
  const DOWN_44 := Entry(0xE45C10C4, 0x2A2B3B05, 0x8D, 44, -146)
  const DOWN_7 := Entry(0xD6BF94D5, 0xE57A42BC, 0x3D, 7, -23)
  const DOWN_1 := Entry(0xCCCCCCCC, 0xCCCCCCCC, 0xCD, 1, -3)

  /** The first row of the table whose power does not exceed mexp. */
  function Row(down: bool, mexp: nat): (e: Entry)
    requires mexp > 0
    ensures IsEntry(e) && e.decExp <= mexp
  {
    if down then (if mexp >= 44 then DOWN_44 else if mexp >= 7 then DOWN_7 else DOWN_1)
    else (if mexp >= 31 then UP_31 else if mexp >= 3 then UP_3 else UP_1)
  }

  /** normailize96: shift left until the top bit is set. */
  method Normalize96(x2: nat, x1: nat, x0: nat) returns (w2: nat, w1: nat, w0: nat, lz: nat)
    requires 0 < x2 < B32 && x1 < B32 && x0 < B32
    ensures B32 / 2 <= w2 < B32 && w1 < B32 && w0 < B32
    ensures Word(w2, w1, w0) == Word(x2, x1, x0) * Power(2, lz)
    ensures x0 == 0 ==> w0 == 0
  {
    hide Word, Power;
    w2, w1, w0, lz := x2, x1, x0, 0;
    assert Power(2, 0) == 1 by { PowerZero(); }
    while w2 < B32 / 2
      invariant 0 < w2 < B32 && w1 < B32 && w0 < B32
      invariant Word(w2, w1, w0) == Word(x2, x1, x0) * Power(2, lz)
      invariant x0 == 0 ==> w0 == 0
      decreases B32 - w2
    {
      DoubledWord(w2, w1, w0);
      Doubled(Word(x2, x1, x0), lz);
      w2 := w2 + w2 + w1 / (B32 / 2);
      w1 := (w1 + w1 + w0 / (B32 / 2)) % B32;
      w0 := (w0 + w0) % B32;
      lz := lz + 1;
    }
  }

  lemma PowerZero()
    ensures Power(2, 0) == 1
  {
  }

  lemma DoubledWord(w2: nat, w1: nat, w0: nat)
    requires w1 < B32 && w0 < B32
    ensures Word(w2 + w2 + w1 / (B32 / 2), (w1 + w1 + w0 / (B32 / 2)) % B32, (w0 + w0) % B32) == 2 * Word(w2, w1, w0)
  {
  }

  lemma Doubled(w: nat, lz: nat)
    ensures 2 * (w * Power(2, lz)) == w * Power(2, lz + 1)
  {
    assert Power(2, lz + 1) == 2 * Power(2, lz);
  }

  // ---- one multiplication ----

  /** The product of two words. */
  function Mul(x: nat, y: nat): nat {
    x * y
  }

  lemma Below(x: nat, m: nat, y: nat)
    requires x <= m
    ensures Mul(x, y) <= Mul(m, y)
  {
  }

  lemma Swap(x: nat, y: nat)
    ensures Mul(x, y) == Mul(y, x)
  {
  }

  /** A product of bounded factors is bounded. */
  lemma Bounded(x: nat, m: nat, y: nat, n: nat)
    requires x < m && y < n
    ensures Mul(x, y) <= Mul(m - 1, n - 1)
  {
    hide Mul;
    Below(x, m - 1, y);
    Swap(m - 1, y);
    Below(y, n - 1, m - 1);
    Swap(n - 1, m - 1);
  }

  lemma Sums(a: nat, p: nat, b: nat, y: nat)
    ensures Mul(a * p + b, y) == Mul(a, y) * p + Mul(b, y)
  {
  }

  /** The part of a product that the truncated factors lose. */
  lemma TruncatedProduct(x: nat, y: nat)
    requires x < B32 && y < B32
    ensures var p := Mul(x / 0x4_0000, y / 0x2_0000);
            p < 0x2000_0000 && 0 <= Mul(x, y) - p * 0x8_0000_0000 < 0x6_0000 * B32
  {
    hide Mul;
    var a, b, c, d := x / 0x4_0000, x % 0x4_0000, y / 0x2_0000, y % 0x2_0000;
    Sums(a, 0x4_0000, b, y);
    Swap(a, y);
    Sums(c, 0x2_0000, d, a);
    Swap(a, c);
    Bounded(a, 0x4000, c, 0x8000);
    Bounded(d, 0x2_0000, a, 0x4000);
    Bounded(b, 0x4_0000, y, B32);
    assert Mul(0x3FFF, 0x7FFF) == 0x3FFF * 0x7FFF && Mul(0x1_FFFF, 0x3FFF) == 0x1_FFFF * 0x3FFF by { Products(); }
    assert Mul(0x3_FFFF, B32 - 1) == 0x3_FFFF * (B32 - 1) by { Products(); }
  }

  lemma Products()
    ensures Mul(0x3FFF, 0x7FFF) == 0x3FFF * 0x7FFF && Mul(0x1_FFFF, 0x3FFF) == 0x1_FFFF * 0x3FFF
    ensures Mul(0x3_FFFF, B32 - 1) == 0x3_FFFF * (B32 - 1)
    ensures Mul(0x7FF, 255) == 0x7FF * 255 && Mul(0x1F_FFFF, 255) == 0x1F_FFFF * 255
    ensures Mul(B32 - 1, 255) == (B32 - 1) * 255 && Mul(B32 - 1, B32 - 1) == (B32 - 1) * (B32 - 1)
  {
  }

  lemma TruncatedByte(x: nat, l: nat)
    requires x < B32 && l < 256
    ensures 0 <= Mul(x, l) - Mul(x / 0x800, l) * 0x800 < 0x8_0000 && Mul(x / 0x800, l) < 0x2000_0000
  {
    hide Mul;
    var a, b := x / 0x800, x % 0x800;
    Sums(a, 0x800, b, l);
    Bounded(b, 0x800, l, 256);
    Bounded(a, 0x20_0000, l, 256);
    Products();
  }

  /** The nine partial products of a word and a multiplier. */
  lemma Expanded(w2: nat, w1: nat, w0: nat, e: Entry)
    ensures Mul(Word(w2, w1, w0), Multiplier(e))
         == Mul(w2, e.h) * B104 + (Mul(w2, e.m) + Mul(w1, e.h)) * B72 + Mul(w2, e.l) * B64
            + (Mul(w1, e.m) + Mul(w0, e.h)) * B40 + Mul(w1, e.l) * B32 + Mul(w0, e.m) * 0x100 + Mul(w0, e.l)
  {
    var H, M := e.h * B40, e.m * 0x100;
    ThreeByThree(w2 * B64, w1 * B32, w0, H, M, e.l);
    Factors(w2, B64, e.h, B40);
    Factors(w2, B64, e.m, 0x100);
    Factors(w2, B64, e.l, 1);
    Factors(w1, B32, e.h, B40);
    Factors(w1, B32, e.m, 0x100);
    Factors(w1, B32, e.l, 1);
    Factors(w0, 1, e.h, B40);
    Factors(w0, 1, e.m, 0x100);
  }

  lemma ThreeByThree(a: nat, b: nat, c: nat, x: nat, y: nat, z: nat)
    ensures (a + b + c) * (x + y + z) == a * x + a * y + a * z + b * x + b * y + b * z + c * x + c * y + c * z
  {
  }

  lemma Factors(x: nat, p: nat, y: nat, q: nat)
    ensures (x * p) * (y * q) == Mul(x, y) * (p * q)
  {
  }

  /** What one multiplication loses: less than 2^20 units of the last word. */
  lemma StepLoss(full: nat, result: nat, a: nat, b: nat, c: nat, d: nat, e: nat, f: nat, wl: nat, wm: nat, ll: nat,
                 d': nat, e': nat, f': nat)
    requires full == a * B104 + (b + c) * B72 + d * B64 + (e + f) * B40 + wl * B32 + wm * 0x100 + ll
    requires result == B32 * (a + b / B32 + c / B32) + 8 * (f' + c % B32 / 8 + b % B32 / 8 + e' + d')
    requires 0 <= d - d' * 0x800 < 0x8_0000
    requires 0 <= e - e' * 0x8_0000_0000 < 0x6_0000 * B32 && 0 <= f - f' * 0x8_0000_0000 < 0x6_0000 * B32
    requires wl < B40 && wm < B64 && ll < B32 * 0x100
    ensures result * B72 <= full < (result + 0x10_0000) * B72
  {
    assert b == b / B32 * B32 + b % B32 && c == c / B32 * B32 + c % B32;
  }

  /** The sums of one multiplication do not wrap, and lose less than 2^20. */
  lemma StepSums(w2: nat, w1: nat, w0: nat, e: Entry) returns (high: nat, low: nat)
    requires w2 < B32 && w1 < B32 && w0 < B32 && IsEntry(e)
    ensures high == Mul(w2, e.h) + Mul(w2, e.m) / B32 + Mul(w1, e.h) / B32
    ensures low == Mul(w0 / 0x4_0000, e.h / 0x2_0000) + Mul(w1, e.h) % B32 / 8 + Mul(w2, e.m) % B32 / 8
                   + Mul(w1 / 0x4_0000, e.m / 0x2_0000) + Mul(w2 / 0x800, e.l)
    ensures low < B32
    ensures (B32 * high + 8 * low) * B72 <= Mul(Word(w2, w1, w0),
                                                Multiplier(e)) < (B32 * high + 8 * low + 0x10_0000) * B72
  {
    hide Mul, Word, Multiplier;
    high := Mul(w2, e.h) + Mul(w2, e.m) / B32 + Mul(w1, e.h) / B32;
    low := Mul(w0 / 0x4_0000, e.h / 0x2_0000) + Mul(w1, e.h) % B32 / 8 + Mul(w2, e.m) % B32 / 8
           + Mul(w1 / 0x4_0000, e.m / 0x2_0000) + Mul(w2 / 0x800, e.l);
    Expanded(w2, w1, w0, e);
    TruncatedProduct(w1, e.m);
    TruncatedProduct(w0, e.h);
    TruncatedByte(w2, e.l);
    Bounded(w1, B32, e.l, 256);
    Bounded(w0, B32, e.m, B32);
    Bounded(w0, B32, e.l, 256);
    Products();
    StepLoss(Mul(Word(w2, w1, w0), Multiplier(e)), B32 * high + 8 * low, Mul(w2, e.h), Mul(w2, e.m), Mul(w1, e.h),
             Mul(w2, e.l), Mul(w1, e.m), Mul(w0, e.h), Mul(w1, e.l), Mul(w0, e.m), Mul(w0, e.l), Mul(w2 / 0x800, e.l),
             Mul(w1 / 0x4_0000, e.m / 0x2_0000), Mul(w0 / 0x4_0000, e.h / 0x2_0000));
  }

  const B96: nat := 0x1_0000_0000_0000_0000_0000_0000

  lemma WordBound(w2: nat, w1: nat, w0: nat)
    requires w2 < B32 && w1 < B32 && w0 < B32
    ensures Word(w2, w1, w0) < B96
  {
  }

  lemma MultiplierBound(e: Entry)
    requires IsEntry(e)
    ensures Multiplier(e) < B72
  {
  }

  lemma NoWrap(w: nat, m: nat, result: nat)
    requires w < B96 && m < B72 && result * B72 <= Mul(w, m)
    ensures result < B96
  {
    Below(w, B96 - 1, m);
    Below(m, B72, B96 - 1);
    Swap(B96 - 1, m);
    assert Mul(B72, B96 - 1) == B72 * (B96 - 1);
    hide Mul;
  }

  /** The body of the scaling loop: one multiplication by a row of the table, in 32 and 64 bits. */
  method Multiply(w2: nat, w1: nat, w0: nat, e: Entry) returns (v2: nat, v1: nat, v0: nat)
    requires w2 < B32 && w1 < B32 && w0 < B32 && IsEntry(e)
    ensures v2 < B32 && v1 < B32 && v0 < B32
    ensures var v := Word(v2, v1, v0);
            v * B72 <= Mul(Word(w2, w1, w0), Multiplier(e)) < (v + 0x10_0000) * B72
  {
    hide Mul, Word, Multiplier;
    ghost var high, low := StepSums(w2, w1, w0, e);
    WordBound(w2, w1, w0);
    MultiplierBound(e);
    NoWrap(Word(w2, w1, w0), Multiplier(e), B32 * high + 8 * low);
    var w2w1 := (Mul(w2, e.h) + Mul(w2, e.m) / B32 + Mul(w1, e.h) / B32) % B64;
    var t := (Mul(w0 / 0x4_0000, e.h / 0x2_0000) % B32 + Mul(w1, e.h) % B32 / 8 + Mul(w2, e.m) % B32 / 8
              + Mul(w1 / 0x4_0000, e.m / 0x2_0000) % B32 + Mul(w2 / 0x800, e.l) % B32) % B32;
    SumsFit(high, low, Mul(w0 / 0x4_0000, e.h / 0x2_0000), Mul(w1, e.h) % B32 / 8, Mul(w2, e.m) % B32 / 8,
            Mul(w1 / 0x4_0000, e.m / 0x2_0000), Mul(w2 / 0x800, e.l));
    w2w1 := (w2w1 + t / 0x2000_0000) % B64;
    v0 := t * 8 % B32;
    v1 := w2w1 % B32;
    v2 := w2w1 / B32;
    WordIs(high, low, v2, v1, v0);
  }

  lemma SumsFit(high: nat, low: nat, f: nat, c: nat, b: nat, e: nat, d: nat)
    requires low == f + c + b + e + d && low < B32 && B32 * high + 8 * low < B96
    ensures (f % B32 + c + b + e % B32 + d % B32) % B32 == low
    ensures high % B64 == high && (high + low / 0x2000_0000) % B64 == high + low / 0x2000_0000
  {
  }

  lemma WordIs(high: nat, low: nat, v2: nat, v1: nat, v0: nat)
    requires low < B32 && v0 == low * 8 % B32
    requires v2 == (high + low / 0x2000_0000) / B32 && v1 == (high + low / 0x2000_0000) % B32
    ensures Word(v2, v1, v0) == B32 * high + 8 * low
  {
  }
}
