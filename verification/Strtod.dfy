/** strtod of source/strtod.c as a whole. */
module Strtod {
  import opened Bytes
  import opened Double
  import opened StrtodScale
  import opened StrtodError
  import opened StrtodLoop
  import opened StrtodDigits

  // ---- powers of ten against powers of two ----

  lemma Power23()
    ensures Power(10, 23) >= Power(2, 76)
  {
    TensTo31();
    PowersOfTwo();
    assert Power(2, 12) == 4096;
    hide Power;
    PowerAdd(10, 8, 8);
    PowerAdd(10, 16, 7);
    PowerAdd(2, 64, 12);
  }

  lemma {:induction false} ManyTens(k: nat)
    ensures Power(10, 23 * k) >= Power(2, 76 * k)
  {
    TenPower(0);
    PowerZero();
    hide Power;
    if k > 0 {
      ManyTens(k - 1);
      Power23();
      PowerAdd(10, 23 * (k - 1), 23);
      PowerAdd(2, 76 * (k - 1), 76);
      BothGrow(Power(10, 23 * (k - 1)), Power(2, 76 * (k - 1)), Power(10, 23), Power(2, 76));
    }
  }

  lemma BothGrow(a: nat, b: nat, c: nat, d: nat)
    requires a >= b && c >= d
    ensures a * c >= b * d
  {
    assert a * c >= b * c;
    assert b * c >= b * d;
  }

  /** 10^345 is at least 2^1140. */
  lemma LargestPower()
    ensures Pow10(345) >= Pow2(1140)
  {
    ManyTens(15);
    Pow10IsPower(345);
    Pow2IsPower(1140);
    hide Power, Pow10, Pow2;
  }

  lemma {:induction false} Pow10Mono(a: int, b: int)
    requires a <= b
    ensures Pow10(a) <= Pow10(b)
    decreases b - a
  {
    if a < b {
      Pow10Next(b - 1);
      Pow10Mono(a, b - 1);
    }
    hide Pow10;
  }

  // ---- from the scaled word to the mantissa that is rounded ----

  /** 2^-62 */
  const WORD_ERROR: real := 1.0 / 4611686018427387904.0

  /** 2^-60 */
  const TOTAL_ERROR: real := 1.0 / 1152921504606846976.0

  lemma CloseBounds(value: real, target: real, n: nat)
    requires Near(value, target, n) && n <= 23
    ensures target > 0.0
    ensures target - target / 18446744073709551616.0 <= value <= target + target / 18446744073709551616.0
  {
    ScaledGrows(n, 23, Part(target));
    assert Scaled(23, Part(target)) <= target / 18446744073709551616.0;
  }

  /** The top 64 bits of a normalised word, with the rest folded into the last bit, differ from the
      word by less than one part in 2^63. */
  lemma TopBits(w2: nat, w1: nat, w0: nat, bit: nat, bine: int)
    requires B32 / 2 <= w2 < B32 && w1 < B32 && w0 < B32 && bit <= 1
    ensures var m, w := OrLow(w2 * B32 + w1, bit), WordValue(Word(w2, w1, w0), bine);
            && TWO_63 <= m < TWO_64 && w > 0.0
            && var y := Scaled(m, Pow2(bine - 63));
               && w - w / 9223372036854775808.0 <= y <= w + w / 9223372036854775808.0
               && (w0 == 0 && bit == 0 ==> y == w)
  {
    var hi, u := w2 * B32 + w1, Pow2(bine - 95);
    var m, w := OrLow(hi, bit), Word(w2, w1, w0);
    MantissaFits(w2, w1, bit);
    Pow2Scaled(bine - 95, 32);
    PowerOf32();
    assert bine - 95 + 32 == bine - 63;
    ScaledTwice(m, B32, u);
    assert w == hi * B32 + w0;
    hide Scaled, Pow2, Power, OrLow, Word;
    CompareTop(w, m, hi, w0, u);
  }

  lemma MantissaFits(w2: nat, w1: nat, bit: nat)
    requires B32 / 2 <= w2 < B32 && w1 < B32 && bit <= 1
    ensures var hi := w2 * B32 + w1; var m := OrLow(hi, bit);
            TWO_63 <= hi <= m < TWO_64 && m <= hi + 1 && (bit == 0 ==> m == hi)
  {
  }

  lemma CompareTop(w: nat, m: nat, hi: nat, w0: nat, u: real)
    requires u > 0.0 && TWO_63 <= hi <= m <= hi + 1 && w == hi * B32 + w0 && w0 < B32
    ensures var y, v := Scaled(m * B32, u), Scaled(w, u);
            v > 0.0 && v - v / 9223372036854775808.0 <= y <= v + v / 9223372036854775808.0
            && (m == hi && w0 == 0 ==> y == v)
  {
    ScaledGrows(m * B32, w + B32, u);
    ScaledGrows(w, m * B32 + B32, u);
    ScaledSum(w, B32, u);
    ScaledSum(m * B32, B32, u);
    ScaledGrows(TWO_63 * B32, w, u);
    ScaledTwice(TWO_63, B32, u);
    ScaledGrows(0, w, u);
    Nothing(u);
    OneOf63(Scaled(B32, u));
    hide Scaled;
  }

  lemma OneOf63(x: real)
    ensures Scaled(TWO_63, x) == 9223372036854775808.0 * x
  {
  }

  ghost predicate Within(y: real, x: real, part: real) {
    x > 0.0 && x - part * x <= y <= x + part * x
  }

  /** What is handed to to_double is within one part in 2^62 of mant * 10^t. */
  lemma MantissaNear(w2: nat, w1: nat, w0: nat, bit: nat, bine: int, mant: nat, t: int, n: nat)
    requires B32 / 2 <= w2 < B32 && w1 < B32 && w0 < B32 && bit <= 1 && n <= 23
    requires Close(Word(w2, w1, w0), bine, mant, t, n)
    ensures var m := OrLow(w2 * B32 + w1, bit); var y := Scaled(m, Pow2(bine - 63));
            && TWO_63 <= m < TWO_64
            && Within(y, Target(mant, t), WORD_ERROR)
            && (n == 0 && w0 == 0 && bit == 0 ==> y == Target(mant, t))
  {
    TopBits(w2, w1, w0, bit, bine);
    CloseBounds(WordValue(Word(w2, w1, w0), bine), Target(mant, t), n);
    if n == 0 {
      NearNothing(WordValue(Word(w2, w1, w0), bine), Target(mant, t));
    }
    hide Scaled, Pow2, OrLow, Word, Target, WordValue, Near;
  }

  lemma NearNothing(v: real, x: real)
    requires Near(v, x, 0)
    ensures v == x
  {
  }

  // ---- the digits that were dropped ----

  /** The number n * 10^t lies between the accumulated value and the next, in units of 10^(t + dropped). */
  lemma DroppedBetween(a: Acc, n: nat, r: nat, t: int)
    requires Accounts(a, n, r)
    ensures Target(a.value, t + a.dropped) <= Target(n, t)
    ensures Target(n, t) <= Target(a.value, t + a.dropped) + Pow10(t + a.dropped)
    ensures r == 0 ==> Target(n, t) == Target(a.value, t + a.dropped)
  {
    hide *;
    var p, u := Power(10, a.dropped), Pow10(t);
    var v := AccountsParts(a, n, r);
    Pow10Scaled(t, a.dropped);
    ScaledTwice(a.value, p, u);
    BetweenUnits(v, r, p, u);
    TargetIs(n, t);
    TargetIs(a.value, t + a.dropped);
  }

  lemma TargetIs(n: nat, t: int)
    ensures Target(n, t) == Scaled(n, Pow10(t)) && Pow10(t) > 0.0
  {
  }

  lemma AccountsParts(a: Acc, n: nat, r: nat) returns (v: nat)
    requires Accounts(a, n, r)
    ensures v == a.value * Power(10, a.dropped) && n == v + r && r < Power(10, a.dropped)
  {
    v := a.value * Power(10, a.dropped);
  }

  lemma Pow10Scaled(e: int, n: nat)
    ensures Pow10(e + n) == Scaled(Power(10, n), Pow10(e))
  {
    hide Pow10, Power;
    Pow10Add(e, n);
    Pow10IsPower(n);
  }

  lemma BetweenUnits(v: nat, r: nat, p: nat, u: real)
    requires r < p && u > 0.0
    ensures Scaled(v, u) <= Scaled(v + r, u) <= Scaled(v, u) + Scaled(p, u)
    ensures r == 0 ==> Scaled(v + r, u) == Scaled(v, u)
  {
    hide Scaled;
    ScaledSum(v, r, u);
    ScaledGrows(0, r, u);
    ScaledGrows(r, p, u);
    Nothing(u);
  }

  /** What is rounded is within one part in 2^60 of the number that was written, and is that number if
      nothing was lost. */
  lemma NumberNear(y: real, a: Acc, n: nat, r: nat, t: int)
    requires Accounts(a, n, r) && a.value > 0 && Within(y, Target(a.value, t + a.dropped), WORD_ERROR)
    ensures Within(y, Target(n, t), TOTAL_ERROR)
    ensures r == 0 ==> Target(n, t) == Target(a.value, t + a.dropped)
  {
    DroppedBetween(a, n, r, t);
    var tau, u := Target(a.value, t + a.dropped), Pow10(t + a.dropped);
    if r != 0 {
      assert a.dropped > 0 by { assert r < Power(10, a.dropped); TenPower(0); }
      LargeValue(a.value);
      ScaledGrows(1844674403622100000, a.value, u);
      Many(u);
    }
    hide Pow10, Scaled, Power, Target;
    Widen(y, tau, Target(n, t), if r == 0 then 0.0 else u);
  }

  lemma LargeValue(v: nat)
    requires v / B32 >= MAX_VAL
    ensures v >= 1844674403622100000
  {
  }

  lemma Many(u: real)
    ensures Scaled(1844674403622100000, u) == 1844674403622100000.0 * u
  {
  }

  lemma Widen(y: real, tau: real, x: real, u: real)
    requires Within(y, tau, WORD_ERROR) && tau <= x <= tau + u && 0.0 <= 1844674403622100000.0 * u <= tau
    ensures Within(y, x, TOTAL_ERROR)
  {
  }

  // ---- the exponent ----

  datatype Scaling = Scaling(down: bool, mexp: nat)

  /** The decimal exponent of the mantissa and the one that was written, added and clamped. */
  method CombineExponent(exp0: int, nege: bool, e: Acc) returns (down: bool, mexp: nat)
    ensures Scaling(down, mexp) == Combined(exp0, nege, e)
  {
    var exp := exp0;
    down, mexp := nege, MAX_EXP_MAGNITUDE;
    if e.value / B32 == 0 {
      if down {
        exp := -exp;
      }
      var exp64 := exp + e.value % B32;
      if exp64 < 0 {
        exp64 := -exp64;
        down := !down;
      }
      if exp64 < mexp {
        mexp := exp64;
      }
    }
  }

  function Combined(exp: int, nege: bool, e: Acc): Scaling {
    if e.value / B32 != 0 then Scaling(nege, MAX_EXP_MAGNITUDE)
    else
      var x := (if nege then -exp else exp) + e.value;
      var m := if x < 0 then -x else x;
      Scaling(if x < 0 then !nege else nege, if m < MAX_EXP_MAGNITUDE then m else MAX_EXP_MAGNITUDE)
  }

  /** The sum of the exponents, clamped at 345; the sign of the mantissa, which the program takes for
      the sign of an absent exponent, does no harm. */
  lemma CombinedMeans(exp: int, nege: bool, e: Acc, written: nat, r: nat)
    requires Accounts(e, written, r) && -0x8000_0000 < exp < 0x8000_0000
    ensures var t, c := exp + Signed(nege, written), Combined(exp, nege, e);
            if -345 <= t <= 345 then c.mexp <= 345 && Signed(c.down, c.mexp) == t
            else c.mexp == 345 && (c.down <==> t < 0)
  {
    if e.value / B32 == 0 {
      assert e.dropped == 0 && written == e.value by { TenPower(0); }
    } else {
      assert written >= e.value by { PowerAtLeast(e.value, e.dropped); }
    }
    hide Power;
  }

  lemma PowerAtLeast(v: nat, n: nat)
    ensures v * Power(10, n) >= v
  {
    var p := Power(10, n);
    hide Power;
    assert v * p >= v * 1;
  }

  // ---- beyond the range of the format ----

  lemma Reciprocal(a: real, b: real, c: real, d: real)
    requires a * b == 1.0 && c * d == 1.0 && a >= c > 0.0 && b > 0.0
    ensures b <= d
  {
  }

  lemma SmallestPower()
    ensures Pow10(-345) <= Pow2(-1140)
  {
    hide *;
    LargestPower();
    Pow10Inverse(345);
    Pow2Inverse(1140);
    PositivePowers(345, 1140);
    Swapped(Pow10(-345), Pow10(345));
    Swapped(Pow2(-1140), Pow2(1140));
    Reciprocal(Pow10(345), Pow10(-345), Pow2(1140), Pow2(-1140));
  }

  lemma PositivePowers(a: int, b: int)
    ensures Pow10(-a) > 0.0 && Pow2(b) > 0.0
  {
  }

  lemma Swapped(a: real, b: real)
    ensures a * b == b * a
  {
  }

  /** From 2^1024 on everything is rounded to infinity. */
  lemma RoundsToInfinity(v: real, bits: nat)
    requires v >= Pow2(1024)
    ensures IsRounded(v, bits) <==> bits == INFINITY
  {
    hide Pow2, Value, Ulp;
    ValueOfInfinity();
    ValueNext(INFINITY - 1);
  }

  /** Below half of the smallest number everything is rounded to zero. */
  lemma RoundsToZero(v: real, bits: nat)
    requires 0.0 < v < Pow2(-1075)
    ensures IsRounded(v, bits) <==> bits == 0
  {
    hide Value, Ulp, Pow2;
    Pow2Next(-1075);
    ZeroValue();
    ValueNext(0);
    BelowOverflow(v, 0);
    RoundedFrom(v, 0, 0);
    if bits > 0 {
      ValueGrows(0, bits);
      if bits > 1 {
        ValueGrows(1, bits);
      }
      assert Distance(v, 0) < Distance(v, bits);
      ValueNext(INFINITY - 1);
      ValueGrows(1, INFINITY - 1);
    }
  }

  lemma One(x: real)
    ensures Scaled(1, x) == x
  {
  }

  lemma TargetAtLeast(v: nat, t: int)
    requires v >= 1 && t >= 345
    ensures Target(v, t) >= Pow2(1140)
  {
    hide Pow10, Pow2, Scaled;
    ScaledGrows(1, v, Pow10(t));
    One(Pow10(t));
    Pow10Mono(345, t);
    LargestPower();
  }

  lemma TargetAtMost(v: nat, t: int)
    requires v <= B64 && t <= -345
    ensures Target(v, t) <= Pow2(-1076)
  {
    hide Pow10, Pow2, Scaled, Power;
    ScaledGrows(v, B64, Pow10(t));
    Pow10Mono(t, -345);
    SmallestPower();
    ScaledOrder(B64, Pow10(t), Pow2(-1140));
    Pow2Scaled(-1140, 64);
    PowersOfTwo();
  }

  lemma ScaledOrder(n: nat, a: real, b: real)
    requires a <= b
    ensures Scaled(n, a) <= Scaled(n, b)
  {
  }

  lemma PowerGaps()
    ensures Pow2(1140) >= 2.0 * Pow2(1024) && Pow2(-1075) == 2.0 * Pow2(-1076)
  {
    Pow2Next(1024);
    Pow2Next(-1076);
    hide Pow2;
    Pow2Mono(1025, 1140);
  }

  /** A number beyond the range, scaled with the clamped exponent, is rounded like the number itself. */
  lemma OutOfRange(y: real, bits: nat, a: Acc, n: nat, r: nat, t: int, down: bool)
    requires Accounts(a, n, r) && a.value > 0 && IsRounded(y, bits)
    requires Within(y, Target(a.value, Signed(down, 345)), WORD_ERROR)
    requires if down then t + a.dropped <= -345 else t + a.dropped >= 345
    ensures bits == (if down then 0 else INFINITY) && IsRounded(Target(n, t), bits)
  {
    hide Pow10, Pow2, Scaled, Power, IsRounded, Target;
    DroppedBetween(a, n, r, t);
    PowerGaps();
    if down {
      TargetAtMost(a.value, -345);
      TargetAtMost(a.value + 1, t + a.dropped);
      NextTarget(a.value, t + a.dropped);
      TargetPositive(a.value, t + a.dropped);
      Positive(-1076);
      RoundsToZero(y, bits);
      RoundsToZero(Target(n, t), bits);
    } else {
      TargetAtLeast(a.value, 345);
      TargetAtLeast(a.value, t + a.dropped);
      Positive(1024);
      RoundsToInfinity(y, bits);
      RoundsToInfinity(Target(n, t), bits);
    }
  }

  lemma Positive(e: int)
    ensures Pow2(e) > 0.0
  {
  }

  lemma TargetPositive(v: nat, t: int)
    requires v > 0
    ensures Target(v, t) > 0.0
  {
    hide Pow10, Scaled;
    ScaledGrows(0, v, Pow10(t));
    Nothing(Pow10(t));
  }

  lemma NextTarget(v: nat, t: int)
    ensures Target(v + 1, t) == Target(v, t) + Pow10(t)
  {
    hide Pow10, Scaled;
    ScaledSum(v, 1, Pow10(t));
    One(Pow10(t));
  }

  // ---- the whole conversion ----

  /** bits is the rounding of a number within one part in 2^60 of x. */
  ghost predicate NearlyRounded(x: real, bits: nat) {
    exists y: real :: IsRounded(y, bits) && Within(y, x, TOTAL_ERROR)
  }

  /** What is guaranteed of the pattern for n * 10^t, when the accumulated value has the exponent e: it
      is nearly the rounding of that number; and exactly if nothing had to be scaled or dropped, and
      whenever the exponent reaches the point where it is clamped. */
  ghost predicate Converts(bits: nat, n: nat, t: int, e: int, lost: bool) {
    && bits <= INFINITY
    && NearlyRounded(Target(n, t), bits)
    && (e == 0 && !lost ==> IsRounded(Target(n, t), bits))
    && (e >= 345 ==> bits == INFINITY && IsRounded(Target(n, t), bits))
    && (e <= -345 ==> bits == 0 && IsRounded(Target(n, t), bits))
  }

  lemma RoundedBound(y: real, bits: nat)
    requires IsRounded(y, bits)
    ensures bits <= INFINITY
  {
    hide Value, Ulp;
  }

  lemma Converted(y: real, bits: nat, a: Acc, n: nat, r: nat, t: int, down: bool, mexp: nat, w0: nat)
    requires Accounts(a, n, r) && a.value > 0 && IsRounded(y, bits)
    requires Within(y, Target(a.value, Signed(down, mexp)), WORD_ERROR)
    requires mexp == 0 && !a.lost ==> y == Target(a.value, Signed(down, mexp))
    requires var e := t + a.dropped;
             if -345 <= e <= 345 then Signed(down, mexp) == e else mexp == 345 && (down <==> e < 0)
    ensures Converts(bits, n, t, t + a.dropped, a.lost)
  {
    hide Target, IsRounded, Within;
    RoundedBound(y, bits);
    var e := t + a.dropped;
    if e >= 345 || e <= -345 {
      OutOfRange(y, bits, a, n, r, t, down);
      WithinItself(Target(n, t)) by { PositiveNumber(a, n, r, t); }
    } else {
      NumberNear(y, a, n, r, t);
    }
  }

  lemma WithinItself(x: real)
    requires x > 0.0
    ensures Within(x, x, TOTAL_ERROR)
  {
  }

  lemma PositiveNumber(a: Acc, n: nat, r: nat, t: int)
    requires Accounts(a, n, r) && a.value > 0
    ensures Target(n, t) > 0.0
  {
    DroppedBetween(a, n, r, t);
    TargetPositive(a.value, t + a.dropped);
    hide Target;
  }

  /** From the digits and the exponents to the pattern without its sign. */
  method Magnitude(a: Acc, exp: int, nege: bool, e: Acc, ghost n: nat, ghost r: nat, ghost written: nat, ghost re: nat)
      returns (bits: nat)
    requires Accounts(a, n, r) && a.value > 0 && Accounts(e, written, re) && -0x8000_0000 < exp < 0x8000_0000
    ensures Converts(bits, n, exp - a.dropped + Signed(nege, written), exp + Signed(nege, written), a.lost)
  {
    hide Target, IsRounded, Within, Accounts, Converts, Close, Steps, OrLow, Word, Scaled, Pow2;
    AccountsFits(a, n, r);
    CombinedMeans(exp, nege, e, written, re);
    var down, mexp := CombineExponent(exp, nege, e);
    var w2, w1, w0, bine := Scale(a.value, down, mexp);
    var bit := if w0 / 0x40_0000 != 0 || a.lost then 1 else 0;
    var mant := OrLow(w2 * B32 + w1, bit);
    MantissaNear(w2, w1, w0, bit, bine, a.value, Signed(down, mexp), Steps(down, mexp));
    bits := ToDouble(mant, bine);
    Converted(Scaled(mant, Pow2(bine - 63)), bits, a, n, r, exp - a.dropped + Signed(nege, written), down, mexp, w0);
  }

  lemma AccountsFits(a: Acc, n: nat, r: nat)
    requires Accounts(a, n, r)
    ensures a.value < B64
  {
  }

  // ---- the text of a number ----

  /** A number as it is written: the digits before and after the point, how many are after it, and the
      exponent; end is where it stops. */
  datatype Numeral = NoNumeral | Numeral(negative: bool, digits: seq<nat>, fraction: nat, exponent: int, end: nat)

  function SpaceEnd(s: bytes, i: nat): (e: nat)
    ensures i <= e
    decreases |s| - i
  {
    if i < |s| && s[i] != 0 && s[i] <= 32 then SpaceEnd(s, i + 1) else i
  }

  function SignEnd(s: bytes, i: nat): nat {
    if Char(s, i) == 45 || Char(s, i) == 43 then i + 1 else i
  }

  // The parts of a mantissa: its sign, the digits before the point, and those after it.

  function SignAt(s: bytes): nat { SpaceEnd(s, 0) }

  function IntStart(s: bytes): nat { SignEnd(s, SignAt(s)) }

  function IntEnd(s: bytes): (e: nat)
    ensures IntStart(s) <= e
  {
    DigitsEnd(s, IntStart(s))
  }

  function FractionStart(s: bytes): nat {
    if Char(s, IntEnd(s)) == 46 then IntEnd(s) + 1 else IntEnd(s)
  }

  function MantissaEnd(s: bytes): (e: nat)
    ensures FractionStart(s) <= e
  {
    if Char(s, IntEnd(s)) == 46 then DigitsEnd(s, FractionStart(s)) else IntEnd(s)
  }

  function MantissaDigits(s: bytes): (ds: seq<nat>)
    ensures AreDigits(ds) && |ds| == IntEnd(s) - IntStart(s) + MantissaEnd(s) - FractionStart(s)
  {
    DigitsOf(s, IntStart(s), IntEnd(s)) + DigitsOf(s, FractionStart(s), MantissaEnd(s))
  }

  /** Where a number without an exponent stops: after its last digit, or after a point that follows digits. */
  function MantissaStop(s: bytes): nat {
    if MantissaEnd(s) > FractionStart(s) then MantissaEnd(s)
    else if IntEnd(s) > IntStart(s) then FractionStart(s) else IntEnd(s)
  }

  function Numbered(s: bytes): Numeral {
    if MantissaDigits(s) == [] then NoNumeral
    else
      var negative, fraction := Char(s, SignAt(s)) == 45, MantissaEnd(s) - FractionStart(s);
      var mark := Char(s, MantissaEnd(s));
      var x := SignEnd(s, MantissaEnd(s) + 1);
      if (mark == 69 || mark == 101) && DigitsEnd(s, x) > x then
        var e := Decimal(DigitsOf(s, x, DigitsEnd(s, x)));
        Numeral(negative, MantissaDigits(s), fraction, Signed(Char(s, MantissaEnd(s) + 1) == 45, e), DigitsEnd(s, x))
      else Numeral(negative, MantissaDigits(s), fraction, 0, MantissaStop(s))
  }

  method SkipWhiteSpaces(s: bytes) returns (p: nat)
    ensures p == SpaceEnd(s, 0)
  {
    p := 0;
    while Char(s, p) != 0 && Char(s, p) <= 32
      invariant SpaceEnd(s, p) == SpaceEnd(s, 0)
      decreases |s| - p
    {
      p := p + 1;
    }
  }

  method ReadSign(s: bytes, start: nat) returns (negative: bool, p: nat)
    ensures p == SignEnd(s, start) && (negative <==> Char(s, start) == 45)
  {
    var signC := Char(s, start);
    negative := signC == 45;
    p := if negative || signC == 43 then start + 1 else start;
  }

  lemma {:induction false} DigitsEndBound(s: bytes, i: nat)
    ensures DigitsEnd(s, i) <= (if i < |s| then |s| else i)
    decreases |s| - i
  {
    if i < |s| && IsDigit(s[i]) {
      DigitsEndBound(s, i + 1);
    }
  }

  lemma {:induction false} SpaceEndBound(s: bytes, i: nat)
    ensures SpaceEnd(s, i) <= (if i < |s| then |s| else i)
    decreases |s| - i
  {
    if i < |s| && s[i] != 0 && s[i] <= 32 {
      SpaceEndBound(s, i + 1);
    }
  }

  lemma {:induction false} ZeroDigits(a: Acc, ds: seq<nat>, r: nat)
    requires Accounts(a, Decimal(ds), r)
    ensures a.value == 0 <==> Decimal(ds) == 0
  {
    if a.value == 0 {
      assert a.dropped == 0;
      TenPower(0);
    } else {
      PowerAtLeast(a.value, a.dropped);
    }
    hide Power;
  }

  lemma {:induction false} DroppedBound(ds: seq<nat>)
    ensures AddAll(NOTHING, ds).dropped <= |ds|
    decreases |ds|
  {
    if ds != [] {
      DroppedBound(ds[..|ds| - 1]);
    }
  }

  lemma PartsBound(s: bytes)
    ensures IntStart(s) <= |s| && MantissaEnd(s) <= |s| && |MantissaDigits(s)| <= |s|
  {
    SpaceEndBound(s, 0);
    assert Char(s, SignAt(s)) != 0 ==> SignAt(s) < |s|;
    DigitsEndBound(s, IntStart(s));
    assert Char(s, IntEnd(s)) != 0 ==> IntEnd(s) < |s|;
    DigitsEndBound(s, FractionStart(s));
    hide SpaceEnd, DigitsEnd;
  }

  /** The first pass over the text: the mantissa. */
  method ReadMantissa(s: bytes) returns (neg: bool, p: nat, c: byte, a: Acc, rdExp: int, endptrval: nat)
    ensures p == MantissaEnd(s) + 1 && c == Char(s, MantissaEnd(s)) && (neg <==> Char(s, SignAt(s)) == 45)
    ensures a == AddAll(NOTHING, MantissaDigits(s)) && rdExp == a.dropped - (MantissaEnd(s) - FractionStart(s))
    ensures endptrval == if MantissaDigits(s) == [] then 0 else MantissaStop(s)
  {
    hide DigitsOf, AddAll, DigitsEnd, SpaceEnd, Char;
    var start := SkipWhiteSpaces(s);
    neg, p := ReadSign(s, start);
    p, c, a, rdExp, endptrval := ReadDigits(s, p, 0, NOTHING, 0, 0);
    ghost var whole := DigitsOf(s, IntStart(s), IntEnd(s));
    AddMore(NOTHING, whole, DigitsOf(s, FractionStart(s), MantissaEnd(s)));
    if c == 46 {
      if endptrval != 0 {
        endptrval := p;
      }
      p, c, a, rdExp, endptrval := ReadDigits(s, p, 1, a, rdExp, endptrval);
    } else {
      NoDigits(s, IntEnd(s), a);
    }
  }

  lemma NoDecimal()
    ensures Decimal([]) == 0 && AddAll(NOTHING, []) == NOTHING
  {
  }

  /** The size of the largest object of the 32-bit program, with which pointers into it can be subtracted. */
  const MAX_OBJECT: nat := 0x7FFF_FFFF

  lemma ExponentBound(s: bytes, a: Acc)
    requires |s| < MAX_OBJECT && a == AddAll(NOTHING, MantissaDigits(s))
    ensures -0x8000_0000 < a.dropped - (MantissaEnd(s) - FractionStart(s)) < 0x8000_0000
  {
    PartsBound(s);
    DroppedBound(MantissaDigits(s));
    hide AddAll, MantissaDigits, MantissaEnd, FractionStart;
  }

  const SIGN_BIT: nat := TWO_63

  /** What strtod promises of the pattern of a numeral. */
  ghost predicate IsPatternOf(bits: nat, number: Numeral)
    requires number.Numeral?
  {
    var a, t := AddAll(NOTHING, number.digits), number.exponent - number.fraction;
    var magnitude := if number.negative then bits - SIGN_BIT else bits;
    && magnitude >= 0
    && if Decimal(number.digits) == 0 then magnitude == 0
       else Converts(magnitude, Decimal(number.digits), t, t + a.dropped, a.lost)
  }

  lemma SignedZero(nege: bool)
    ensures Signed(nege, 0) == 0
  {
  }

  /** strtod: where the number ends, and its pattern. Without digits the result is 0 and the end is the
      start of the text. */
  method Strtod(s: bytes) returns (bits: nat, endptr: nat)
    requires |s| < MAX_OBJECT
    ensures Numbered(s).NoNumeral? ==> bits == 0 && endptr == 0
    ensures Numbered(s).Numeral? ==> endptr == Numbered(s).end && IsPatternOf(bits, Numbered(s))
  {
    hide DigitsOf, AddAll, Decimal, DigitsEnd, SpaceEnd, Char, Converts, Accounts, MantissaDigits, MantissaEnd,
             MantissaStop,
         FractionStart, IntEnd, IntStart, SignEnd, Signed;
    var neg, p, c, a, exp, endptrval := ReadMantissa(s);
    ghost var digits := MantissaDigits(s);
    if digits != [] {
      StopPositive(s);
    }
    if endptrval == 0 {
      return 0, 0;
    }
    var nege, e, rdExp := neg, NOTHING, exp;
    ghost var written: seq<nat> := [];
    NoDecimal();
    SignedZero(nege);
    if c == 69 || c == 101 {
      nege, p := ReadSign(s, p);
      SignedZero(nege);
      NoDigits(s, p, NOTHING);
      written := DigitsOf(s, p, DigitsEnd(s, p));
      p, c, e, rdExp, endptrval := ReadDigits(s, p, 2, NOTHING, rdExp, endptrval);
    }
    endptr := endptrval;
    bits := if neg then SIGN_BIT else 0;
    ExponentBound(s, a);
    ghost var r := DigitsAccounted(digits);
    ghost var re := DigitsAccounted(written);
    ZeroDigits(a, digits, r);
    if a.value != 0 {
      var magnitude := Magnitude(a, exp, nege, e, Decimal(digits), r, Decimal(written), re);
      bits := bits + magnitude;
    }
  }

  lemma StopPositive(s: bytes)
    requires MantissaDigits(s) != []
    ensures MantissaStop(s) > 0
  {
    hide DigitsEnd, DigitsOf, SpaceEnd, Char;
  }
}
