/** Binary64 patterns (section 3.4 of IEEE 754-2008) as numbers, and to_double of source/strtod.c,
    which rounds a 64-bit mantissa to the nearest of them. */
module Double {

  const TWO_52: nat := 0x10_0000_0000_0000
  const TWO_63: nat := 0x8000_0000_0000_0000
  const TWO_64: nat := 0x1_0000_0000_0000_0000

  // ---- powers of two ----

  function Pow2(e: int): (p: real)
    ensures p > 0.0
    decreases if e < 0 then -e else e
  {
    if e == 0 then 1.0 else if e > 0 then 2.0 * Pow2(e - 1) else Pow2(e + 1) / 2.0
  }

  lemma Pow2Next(e: int)
    ensures Pow2(e + 1) == 2.0 * Pow2(e)
  {
  }

  lemma Pow2Zero()
    ensures Pow2(0) == 1.0
  {
  }

  lemma {:induction false} Pow2Add(e: int, n: nat)
    ensures Pow2(e + n) == Pow2(e) * Pow2(n)
    decreases n
  {
    hide Pow2;
    Pow2Zero();
    if n > 0 {
      Pow2Add(e, n - 1);
      Pow2Next(e + (n - 1));
      Pow2Next(n - 1);
      Regroup(Pow2(e), Pow2(n - 1));
    }
  }

  lemma Regroup(a: real, b: real)
    ensures 2.0 * (a * b) == a * (2.0 * b)
  {
  }

  function Power(b: nat, n: nat): (p: nat)
    ensures b > 0 ==> p > 0
  {
    if n == 0 then 1 else b * Power(b, n - 1)
  }

  lemma {:induction false} Pow2IsPower(n: nat)
    ensures Pow2(n) == Power(2, n) as real
  {
    if n > 0 {
      Pow2IsPower(n - 1);
    }
  }

  /** n units of u. */
  function Scaled(n: nat, u: real): real {
    n as real * u
  }

  lemma Pow2Scaled(e: int, n: nat)
    ensures Pow2(e + n) == Scaled(Power(2, n), Pow2(e))
  {
    hide Pow2, Power;
    Pow2Add(e, n);
    Pow2IsPower(n);
  }

  lemma ScaledGrows(a: nat, b: nat, u: real)
    requires u > 0.0
    ensures a < b ==> Scaled(a, u) < Scaled(b, u)
    ensures a <= b ==> Scaled(a, u) <= Scaled(b, u)
  {
  }

  lemma ScaledTwice(a: nat, d: nat, u: real)
    ensures Scaled(a, Scaled(d, u)) == Scaled(a * d, u)
  {
    assert (a * d) as real == a as real * d as real;
  }

  lemma ScaledSum(a: nat, b: nat, u: real)
    ensures Scaled(a + b, u) == Scaled(a, u) + Scaled(b, u)
  {
  }

  lemma {:induction false} PowerAdd(b: nat, n: nat, k: nat)
    ensures Power(b, n + k) == Power(b, n) * Power(b, k)
  {
    if k > 0 {
      PowerAdd(b, n, k - 1);
      assert Power(b, n + k) == b * Power(b, n + (k - 1));
      assert Power(b, k) == b * Power(b, k - 1);
      Rotate(b, Power(b, n), Power(b, k - 1));
    }
  }

  lemma Rotate(b: nat, x: nat, y: nat)
    ensures b * (x * y) == x * (b * y)
  {
  }

  lemma PowersOfTwo()
    ensures Power(2, 10) == 1024 && Power(2, 11) == 2048 && Power(2, 52) == TWO_52
    ensures Power(2, 51) == 0x8_0000_0000_0000 && Power(2, 63) == TWO_63 && Power(2, 64) == TWO_64
  {
    assert Power(2, 10) == 1024 && Power(2, 11) == 2048;
    PowerAdd(2, 10, 10);
    PowerAdd(2, 20, 20);
    PowerAdd(2, 40, 11);
    PowerAdd(2, 51, 1);
    PowerAdd(2, 52, 11);
    PowerAdd(2, 63, 1);
    assert Power(2, 1) == 2;
  }

  // ---- patterns ----

  const INFINITY: nat := 2047 * TWO_52

  /** The number a pattern of the positive half stands for; the pattern of infinity is read as the
      power of two that would follow the largest number. */
  function Value(bits: nat): real {
    var e, f := bits / TWO_52, bits % TWO_52;
    if e == 0 then Scaled(f, Pow2(-1074)) else Scaled(TWO_52 + f, Pow2(e - 1075))
  }

  /** The distance from a pattern to the next. */
  function Ulp(bits: nat): (u: real)
    ensures u > 0.0
  {
    var e := bits / TWO_52;
    if e == 0 then Pow2(-1074) else Pow2(e - 1075)
  }

  lemma ValueNext(bits: nat)
    ensures Value(bits + 1) == Value(bits) + Ulp(bits)
  {
    var e, f := bits / TWO_52, bits % TWO_52;
    if f + 1 < TWO_52 {
      assert (bits + 1) / TWO_52 == e && (bits + 1) % TWO_52 == f + 1;
    } else {
      assert (bits + 1) / TWO_52 == e + 1 && (bits + 1) % TWO_52 == 0;
      Pow2Next(e - 1075);
    }
  }

  lemma {:induction false} ValueGrows(a: nat, b: nat)
    requires a < b
    ensures Value(a) < Value(b)
    decreases b - a
  {
    ValueNext(b - 1);
    if a < b - 1 {
      ValueGrows(a, b - 1);
    }
  }

  function Distance(v: real, bits: nat): real {
    if v < Value(bits) then Value(bits) - v else v - Value(bits)
  }

  /** The pattern of v under roundTiesToEven (section 4.3.1 of IEEE 754-2008): infinity from half a
      unit above the largest number on, and otherwise the nearest pattern, the even one of two. */
  ghost predicate IsRounded(v: real, bits: nat) {
    if v >= Value(INFINITY - 1) + Ulp(INFINITY - 1) / 2.0 then bits == INFINITY
    else
      && bits < INFINITY
      && forall c: nat | c < INFINITY && c != bits ::
           Distance(v, bits) < Distance(v, c) || (Distance(v, bits) == Distance(v, c) && bits % 2 == 0)
  }

  /** Between two neighbours the nearest is one of them. */
  lemma NeighboursSuffice(v: real, low: nat, c: nat)
    requires Value(low) <= v < Value(low + 1)
    ensures c < low ==> Distance(v, low) < Distance(v, c)
    ensures c > low + 1 ==> Distance(v, low + 1) < Distance(v, c)
  {
    if c < low {
      ValueGrows(c, low);
    } else if c > low + 1 {
      ValueGrows(low + 1, c);
    }
  }

  /** Rounding up from the lower neighbour when the rest is more than half a unit, or is half a unit and
      the lower neighbour is odd. */
  lemma RoundedFrom(v: real, low: nat, bits: nat)
    requires low < INFINITY && Value(low) <= v < Value(low) + Ulp(low)
    requires bits == if v - Value(low) > Ulp(low) / 2.0
             || (v - Value(low) == Ulp(low) / 2.0 && low % 2 == 1) then low + 1 else low
    ensures IsRounded(v, bits)
  {
    hide Value, Ulp;
    ValueNext(low);
    BelowOverflow(v, low);
    if v < Value(INFINITY - 1) + Ulp(INFINITY - 1) / 2.0 {
      forall c: nat | c < INFINITY && c != bits
        ensures Distance(v, bits) < Distance(v, c) || (Distance(v, bits) == Distance(v, c) && bits % 2 == 0)
      {
        NeighboursSuffice(v, low, c);
      }
    }
  }

  lemma BelowOverflow(v: real, low: nat)
    requires low < INFINITY && Value(low) <= v < Value(low) + Ulp(low)
    ensures low < INFINITY - 1 ==> v < Value(INFINITY - 1)
  {
    hide Value, Ulp;
    ValueNext(low);
    if low + 1 < INFINITY - 1 {
      ValueGrows(low + 1, INFINITY - 1);
    }
  }

  // ---- to_double ----

  const EXP_BIAS: int := 1023
  const REM_MSB: nat := 1024

  /** a | bit, for a single low bit. */
  function OrLow(a: nat, bit: nat): (r: nat)
    requires bit <= 1
    ensures r / 2 == a / 2
    ensures r % 2 == 0 <==> a % 2 == 0 && bit == 0
  {
    if a % 2 == 0 then a + bit else a
  }

  /** The number that a mantissa stands for in the middle of rounding: the low bit also keeps
      whether anything has been shifted out. */
  predicate Shifted(whole: nat, shift: nat, mant: nat) {
    && mant / 2 == whole / Power(2, shift + 1)
    && (mant % 2 == 0 <==> whole % Power(2, shift + 1) == 0)
  }

  /** The last step of to_double, on the mantissa and the biased exponent. */
  function Assemble(mant: nat, exp: nat): nat {
    var rem, ret := mant % (2 * REM_MSB), mant % TWO_63 / (2 * REM_MSB);
    var tie := OrLow(rem, ret % 2);
    ret + exp * TWO_52 + (if tie > REM_MSB then 1 else 0)
  }

  lemma PowerNext(n: nat)
    ensures Power(2, n + 1) == 2 * Power(2, n) && Power(2, n) > 0
  {
  }

  lemma ShiftOne(whole: nat, shift: nat, mant: nat)
    requires Shifted(whole, shift, mant)
    ensures Shifted(whole, shift + 1, OrLow(mant / 2, mant % 2))
  {
    PowerNext(shift + 1);
    var p := Power(2, shift + 1);
    var q := whole / p;
    assert whole == q * p + whole % p;
    HalfAgain(whole, p);
  }

  lemma HalfAgain(w: nat, p: nat)
    requires p > 0
    ensures w / (2 * p) == w / p / 2
    ensures w % (2 * p) == 0 <==> w % p == 0 && w / p % 2 == 0
  {
    var q := w / p;
    var h := q / 2;
    var r := (q % 2) * p + w % p;
    HalfProduct(h, q % 2, p);
    assert q == 2 * h + q % 2;
    assert r < 2 * p && (r == 0 <==> q % 2 == 0 && w % p == 0);
    QuotientIs(w, 2 * p, h, r);
  }

  lemma HalfProduct(h: nat, b: nat, p: nat)
    ensures (2 * h + b) * p == h * (2 * p) + b * p
  {
  }

  lemma QuotientIs(w: nat, d: nat, q: nat, r: nat)
    requires d > 0 && w == q * d + r && r < d
    ensures w / d == q && w % d == r
  {
    Product(w / d, q, d);
    assert w == w / d * d + w % d;
  }

  lemma Product(k: nat, q: nat, d: nat)
    ensures k > q ==> k * d >= q * d + d
    ensures k < q ==> k * d + d <= q * d
  {
    var j := if k > q then k - q - 1 else if k < q then q - k - 1 else 0;
    if k > q {
      assert k * d == q * d + d + j * d;
    } else if k < q {
      assert q * d == k * d + d + j * d;
    }
  }

  lemma {:induction false} Pow2Mono(a: int, b: int)
    requires a <= b
    ensures Pow2(a) <= Pow2(b)
    decreases b - a
  {
    if a < b {
      Pow2Next(b - 1);
      Pow2Mono(a, b - 1);
    }
    hide Pow2;
  }

  /** The rest over the lower neighbour, in units u of which d make one step. */
  lemma ScaledRounded(v: real, low: nat, u: real, d: nat, r: nat, bits: nat)
    requires low < INFINITY && u > 0.0 && r < d && d % 2 == 0
    requires v == Value(low) + Scaled(r, u) && Ulp(low) == Scaled(d, u)
    requires bits == if 2 * r > d || (2 * r == d && low % 2 == 1) then low + 1 else low
    ensures IsRounded(v, bits)
  {
    hide Value, Ulp, IsRounded, Scaled;
    Compare(r, d, u);
    RoundedFrom(v, low, bits);
  }

  lemma Compare(r: nat, d: nat, u: real)
    requires u > 0.0 && r < d && d % 2 == 0
    ensures 0.0 <= Scaled(r, u) < Scaled(d, u)
    ensures Scaled(r, u) > Scaled(d, u) / 2.0 <==> 2 * r > d
    ensures Scaled(r, u) == Scaled(d, u) / 2.0 <==> 2 * r == d
  {
    ScaledGrows(0, r, u);
    ScaledGrows(r, d, u);
    ScaledGrows(r, d / 2, u);
    ScaledGrows(d / 2, r, u);
    ScaledSum(d / 2, d / 2, u);
    assert Scaled(0, u) == 0.0;
    assert d / 2 + d / 2 == d;
    hide Scaled;
  }

  /** The mantissa of a normal number, cut at its 11 last bits. */
  lemma NormalParts(mant: nat, e: nat, low: nat, q: nat, rem: nat)
    requires TWO_63 <= mant < TWO_64 && 1 <= e <= 2046
    requires q == mant % TWO_63 / 2048 && rem == mant % 2048 && low == q + e * TWO_52
    ensures q < TWO_52 && mant == (TWO_52 + q) * 2048 + rem && low < INFINITY && low % 2 == q % 2
    ensures low / TWO_52 == e && low % TWO_52 == q
  {
  }

  lemma NormalScale(exp: int, e: nat, low: nat, q: nat)
    requires e == exp + EXP_BIAS && e >= 1 && low / TWO_52 == e && low % TWO_52 == q
    ensures var d := Scaled(2048, Pow2(exp - 63)); Ulp(low) == d && Value(low) == Scaled(TWO_52 + q, d)
  {
    hide Pow2, Scaled;
    assert exp - 63 + 11 == e - 1075;
    Pow2Scaled(exp - 63, 11);
    PowersOfTwo();
  }

  lemma NormalRounded(mant: nat, exp: int)
    requires TWO_63 <= mant < TWO_64 && 1 <= exp + EXP_BIAS <= 2046
    ensures IsRounded(Scaled(mant, Pow2(exp - 63)), Assemble(mant, exp + EXP_BIAS))
  {
    hide Pow2, Scaled, IsRounded, Value, Ulp, Assemble;
    var e, u := exp + EXP_BIAS, Pow2(exp - 63);
    var rem, q := mant % 2048, mant % TWO_63 / 2048;
    var low := q + e * TWO_52;
    NormalParts(mant, e, low, q, rem);
    NormalScale(exp, e, low, q);
    ScaledSplit(mant, TWO_52 + q, 2048, rem, u);
    Assembled(mant, e, low, rem, q);
    ScaledRounded(Scaled(mant, u), low, u, 2048, rem, Assemble(mant, e));
  }

  lemma Assembled(mant: nat, e: nat, low: nat, rem: nat, q: nat)
    requires rem == mant % 2048 && q == mant % TWO_63 / 2048 && low == q + e * TWO_52 && low % 2 == q % 2
    ensures Assemble(mant, e) == if 2 * rem > 2048 || (2 * rem == 2048 && low % 2 == 1) then low + 1 else low
  {
    hide OrLow;
    TieBreak(rem, q % 2);
  }

  lemma TieBreak(rem: nat, odd: nat)
    requires odd <= 1
    ensures OrLow(rem, odd) > REM_MSB <==> rem > 1024 || (rem == 1024 && odd == 1)
  {
  }

  lemma NotShifted(mant: nat)
    ensures Shifted(mant, 0, mant)
  {
    assert Power(2, 1) == 2;
  }

  /** The rest of a shifted mantissa decides like the rest of the whole one. */
  lemma ShiftedRest(whole: nat, shift: nat, m: nat) returns (d: nat, r: nat)
    requires Shifted(whole, shift, m)
    ensures d == 1024 * Power(2, shift + 1) && whole == m / 2048 * d + r && r < d
    ensures (2 * r > d <==> m % 2048 > 1024) && (2 * r == d <==> m % 2048 == 1024)
  {
    var p := Power(2, shift + 1);
    PowerNext(shift + 1);
    var a, b, r1 := whole / p, whole % p, m % 2048 / 2;
    hide Power;
    d, r := 1024 * p, r1 * p + b;
    assert whole == a * p + b && a == 1024 * (m / 2048) + r1 && r1 < 1024;
    assert m % 2048 == 2 * r1 + m % 2;
    RestBounds(r1, b, p);
    Distribute(m / 2048, r1, p);
  }

  lemma ScaledSplit(whole: nat, q: nat, d: nat, r: nat, u: real)
    requires whole == q * d + r
    ensures Scaled(whole, u) == Scaled(q, Scaled(d, u)) + Scaled(r, u)
  {
    hide Scaled;
    ScaledTwice(q, d, u);
    ScaledSum(q * d, r, u);
  }

  lemma Distribute(q: nat, r1: nat, p: nat)
    ensures (1024 * q + r1) * p == q * (1024 * p) + r1 * p
  {
  }

  lemma RestBounds(r1: nat, b: nat, p: nat)
    requires r1 < 1024 && b < p
    ensures r1 * p + b < 1024 * p
    ensures 2 * (r1 * p + b) > 1024 * p <==> r1 > 512 || (r1 == 512 && b > 0)
    ensures 2 * (r1 * p + b) == 1024 * p <==> r1 == 512 && b == 0
  {
    if r1 < 512 {
      Times(r1 + 1, 512, p);
    } else if r1 > 512 {
      Times(513, r1, p);
    }
    Times(r1 + 1, 1024, p);
  }

  lemma Times(a: nat, b: nat, p: nat)
    requires a <= b
    ensures a * p <= b * p
  {
  }

  lemma SubnormalRounded(mant: nat, exp: int, shift: nat, m: nat)
    requires TWO_63 <= mant < TWO_64 && 0 < shift && shift + exp + EXP_BIAS == 1 && Shifted(mant, shift, m)
    ensures IsRounded(Scaled(mant, Pow2(exp - 63)), Assemble(m, 0))
  {
    hide *;
    var u, q := Pow2(exp - 63), m / 2048;
    var d, r := ShiftedRest(mant, shift, m);
    SubnormalSmall(mant, shift, m);
    SubnormalScale(exp, shift, q);
    ScaledSplit(mant, q, d, r, u);
    SubnormalAssembled(m, q);
    ScaledRounded(Scaled(mant, u), q, u, d, r, Assemble(m, 0));
  }

  lemma SubnormalScale(exp: int, shift: nat, q: nat)
    requires shift + exp + EXP_BIAS == 1 && q < TWO_52
    ensures var d := Scaled(1024 * Power(2, shift + 1), Pow2(exp - 63));
            Ulp(q) == d && Value(q) == Scaled(q, d) && q < INFINITY
  {
    hide Pow2, Power, Scaled;
    assert exp - 63 + (shift + 11) == -1074;
    Pow2Scaled(exp - 63, shift + 11);
    assert shift + 11 == shift + 1 + 10;
    PowerAdd(2, shift + 1, 10);
    PowersOfTwo();
    assert q / TWO_52 == 0 && q % TWO_52 == q;
  }

  lemma SubnormalAssembled(m: nat, q: nat)
    requires m < TWO_63 && q == m / 2048
    ensures Assemble(m, 0) == if m % 2048 > 1024 || (m % 2048 == 1024 && q % 2 == 1) then q + 1 else q
  {
    hide OrLow;
    TieBreak(m % 2048, q % 2);
  }

  lemma SubnormalSmall(mant: nat, shift: nat, m: nat)
    requires mant < TWO_64 && 0 < shift && Shifted(mant, shift, m)
    ensures m < TWO_63 && m / 2048 < TWO_52
  {
    var p := Power(2, shift + 1);
    assert p >= 4 by {
      PowerNext(shift);
      PowerNext(shift - 1);
    }
    hide Power;
    FourTimes(mant, p);
  }

  lemma FourTimes(w: nat, p: nat)
    requires p >= 4
    ensures w / p * 4 <= w
  {
    var q := w / p;
    assert w == q * p + w % p;
    Times(4, p, q);
  }

  /** A number with a full mantissa lies between two powers of two. */
  lemma Magnitude(mant: nat, exp: int)
    requires TWO_63 <= mant < TWO_64
    ensures Pow2(exp) <= Scaled(mant, Pow2(exp - 63)) < Pow2(exp + 1)
  {
    hide Pow2, Scaled, Power;
    Pow2Scaled(exp - 63, 63);
    Pow2Scaled(exp - 63, 64);
    assert exp - 63 + 63 == exp && exp - 63 + 64 == exp + 1;
    PowersOfTwo();
    ScaledGrows(TWO_63, mant, Pow2(exp - 63));
    ScaledGrows(mant, TWO_64, Pow2(exp - 63));
  }

  lemma ValueOfInfinity()
    ensures Value(INFINITY) == Pow2(1024)
  {
    hide Pow2, Scaled, Power;
    assert INFINITY / TWO_52 == 2047 && INFINITY % TWO_52 == 0;
    Pow2Scaled(972, 52);
    PowersOfTwo();
  }

  lemma ZeroValue()
    ensures Value(0) == 0.0 && Ulp(0) == Pow2(-1074)
  {
    hide Pow2;
  }

  lemma Overflows(mant: nat, exp: int)
    requires TWO_63 <= mant < TWO_64 && exp >= 1024
    ensures IsRounded(Scaled(mant, Pow2(exp - 63)), INFINITY)
  {
    hide Pow2, Value, Ulp, Scaled;
    Magnitude(mant, exp);
    Pow2Mono(1024, exp);
    ValueOfInfinity();
    ValueNext(INFINITY - 1);
  }

  lemma Underflows(mant: nat, exp: int)
    requires TWO_63 <= mant < TWO_64 && exp < -1075
    ensures IsRounded(Scaled(mant, Pow2(exp - 63)), 0)
  {
    hide Pow2, IsRounded, Scaled;
    Magnitude(mant, exp);
    Pow2Mono(exp + 1, -1075);
    Pow2Next(-1075);
    ZeroValue();
    hide Value, Ulp;
    RoundedFrom(Scaled(mant, Pow2(exp - 63)), 0, 0);
  }

  /** to_double: the pattern nearest to mant * 2^(exp - 63). */
  method ToDouble(mant: nat, exp: int) returns (bits: nat)
    requires TWO_63 <= mant < TWO_64
    ensures IsRounded(Scaled(mant, Pow2(exp - 63)), bits)
  {
    hide IsRounded, Pow2, Shifted, Value, Ulp, OrLow;
    var m: nat, e := mant, exp + EXP_BIAS;
    if e >= 2047 {
      Overflows(mant, exp);
      return INFINITY;
    }
    if e < 1 {
      if e < -52 {
        Underflows(mant, exp);
        return 0;
      }
      ghost var shift: nat := 0;
      NotShifted(mant);
      while e <= 0
        invariant e <= 1 && shift == e - exp - EXP_BIAS >= 0
        invariant Shifted(mant, shift, m)
      {
        ShiftOne(mant, shift, m);
        m := OrLow(m / 2, m % 2);
        e := e + 1;
        shift := shift + 1;
      }
      e := 0;
      SubnormalRounded(mant, exp, shift, m);
    } else {
      NormalRounded(mant, exp);
    }
    var rem := m % (2 * REM_MSB);
    bits := m % TWO_63 / (2 * REM_MSB);
    rem := OrLow(rem, bits % 2);
    bits := bits + e * TWO_52;
    if rem > REM_MSB {
      bits := bits + 1;
    }
  }
}
