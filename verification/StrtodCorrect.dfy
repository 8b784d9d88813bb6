/** How far the result of strtod can be from the correctly rounded one. */
module StrtodCorrect {
  import opened Double
  import opened StrtodLoop
  import opened StrtodDigits
  import opened Strtod

  /** Halfway between a pattern and the next. */
  function Middle(k: nat): real {
    Value(k) + Ulp(k) / 2.0
  }

  lemma {:induction false} MiddleGrows(a: nat, b: nat)
    requires a < b
    ensures Middle(a) + Ulp(a) / 2.0 + Ulp(b) / 2.0 <= Middle(b)
  {
    hide Value, Ulp;
    ValueNext(a);
    if a + 1 < b {
      ValueGrows(a + 1, b);
    }
  }

  /** A value has at most 53 bits in units of its last place. */
  lemma ValueBound(k: nat)
    ensures 0.0 <= Value(k) <= 9007199254740992.0 * Ulp(k)
  {
    var e, f := k / TWO_52, k % TWO_52;
    var n, u := if e == 0 then f else TWO_52 + f, Ulp(k);
    hide Pow2;
    Units(n, u);
  }

  lemma Units(n: nat, u: real)
    requires n <= 9007199254740992 && u > 0.0
    ensures 0.0 <= Scaled(n, u) <= 9007199254740992.0 * u
  {
    var m: real := n as real;
    TimesUnit(m, u);
  }

  lemma TimesUnit(m: real, u: real)
    requires 0.0 <= m <= 9007199254740992.0 && u > 0.0
    ensures 0.0 <= m * u <= 9007199254740992.0 * u
  {
  }

  /** What is rounded to a pattern lies between the halfway points on its two sides. */
  lemma RoundedBetween(v: real, bits: nat)
    requires IsRounded(v, bits)
    ensures bits <= INFINITY
    ensures bits > 0 ==> v >= Middle(bits - 1)
    ensures bits < INFINITY ==> v <= Middle(bits)
  {
    hide Value, Ulp;
    if bits < INFINITY {
      ValueNext(bits);
      if bits + 1 < INFINITY {
        assert Distance(v, bits) <= Distance(v, bits + 1);
      }
      if bits > 0 {
        ValueNext(bits - 1);
        assert Distance(v, bits) <= Distance(v, bits - 1);
      }
    }
  }

  /** What lies strictly between those points is rounded to the pattern. */
  lemma BetweenRounded(v: real, bits: nat)
    requires v >= 0.0 && bits <= INFINITY
    requires bits > 0 ==> v > Middle(bits - 1)
    requires bits < INFINITY ==> v < Middle(bits)
    ensures IsRounded(v, bits)
  {
    ZeroValue();
    hide Value, Ulp, IsRounded;
    if bits == INFINITY {
      AtInfinity(v);
    } else if v >= Value(bits) {
      RoundedFrom(v, bits, bits);
    } else {
      ValueNext(bits - 1);
      RoundedFrom(v, bits - 1, bits);
    }
  }

  lemma AtInfinity(v: real)
    requires v >= Middle(INFINITY - 1)
    ensures IsRounded(v, INFINITY)
  {
    hide Value, Ulp;
  }

  lemma {:induction false} FloorPattern(v: real, high: nat) returns (low: nat)
    requires 0.0 <= v < Value(high)
    ensures low < high && Value(low) <= v < Value(low + 1)
    decreases high
  {
    ZeroValue();
    hide Value;
    if v >= Value(high - 1) {
      low := high - 1;
    } else {
      low := FloorPattern(v, high - 1);
    }
  }

  /** Every number has a rounding. */
  lemma RoundingExists(v: real) returns (bits: nat)
    requires v >= 0.0
    ensures IsRounded(v, bits)
  {
    hide Value, Ulp, IsRounded;
    ValueNext(INFINITY - 1);
    if v >= Middle(INFINITY - 1) {
      AtInfinity(v);
      bits := INFINITY;
    } else {
      var low := FloorPattern(v, INFINITY);
      ValueNext(low);
      bits := if v - Value(low) > Ulp(low) / 2.0
      || (v - Value(low) == Ulp(low) / 2.0 && low % 2 == 1) then low + 1 else low;
      RoundedFrom(v, low, bits);
    }
  }

  /** One part in 2^60 is less than half a unit of the last place. */
  lemma LessThanHalf(x: real, y: real, v: real, u: real)
    requires Within(y, x, TOTAL_ERROR) && 0.0 <= v <= 9007199254740992.0 * u && u > 0.0
    ensures x <= v + u / 2.0 ==> y < v + u
    ensures y <= v + u / 2.0 ==> x < v + u
  {
    assert y >= x - x / 2.0;
  }

  lemma RoomBetween(a: nat, b: nat)
    requires a < b
    ensures Value(a) + Ulp(a) <= Middle(b) && Middle(a) == Value(a) + Ulp(a) / 2.0
    ensures Ulp(a) > 0.0
  {
    MiddleGrows(a, b);
    hide Value, Ulp;
  }

  lemma TooFarUp(x: real, y: real, c: nat, bits: nat)
    requires IsRounded(x, c) && IsRounded(y, bits) && Within(y, x, TOTAL_ERROR)
    ensures bits <= c + 1
  {
    hide *;
    RoundedBetween(x, c);
    RoundedBetween(y, bits);
    if bits > c + 1 {
      ValueBound(c);
      RoomBetween(c, bits - 1);
      LessThanHalf(x, y, Value(c), Ulp(c));
    }
  }

  lemma TooFarDown(x: real, y: real, c: nat, bits: nat)
    requires IsRounded(x, c) && IsRounded(y, bits) && Within(y, x, TOTAL_ERROR)
    ensures c <= bits + 1
  {
    hide *;
    RoundedBetween(x, c);
    RoundedBetween(y, bits);
    if c > bits + 1 {
      ValueBound(bits);
      RoomBetween(bits, c - 1);
      LessThanHalf(x, y, Value(bits), Ulp(bits));
    }
  }

  /** The result is at most one pattern from the correct one. */
  lemma NextToCorrect(x: real, bits: nat, c: nat)
    requires NearlyRounded(x, bits) && IsRounded(x, c)
    ensures c - 1 <= bits <= c + 1
  {
    hide IsRounded;
    var y :| IsRounded(y, bits) && Within(y, x, TOTAL_ERROR);
    TooFarUp(x, y, c, bits);
    TooFarDown(x, y, c, bits);
  }

  /** x is farther from the halfway point than part of x. */
  predicate Clear(x: real, part: real, k: nat) {
    x - Middle(k) > part * x || Middle(k) - x > part * x
  }

  /** The result is the correct one for every number that is not too close to a halfway point. */
  lemma CorrectWhenClear(x: real, bits: nat)
    requires NearlyRounded(x, bits) && forall k: nat | k < INFINITY :: Clear(x, TOTAL_ERROR, k)
    ensures IsRounded(x, bits)
  {
    hide IsRounded, Middle;
    var y :| IsRounded(y, bits) && Within(y, x, TOTAL_ERROR);
    RoundedBetween(y, bits);
    if bits > 0 {
      assert Clear(x, TOTAL_ERROR, bits - 1);
    }
    if bits < INFINITY {
      assert Clear(x, TOTAL_ERROR, bits);
    }
    BetweenRounded(x, bits);
  }

  /** The pattern without its sign. */
  function MagnitudeBits(bits: nat, number: Numeral): int
    requires number.Numeral?
  {
    if number.negative then bits - SIGN_BIT else bits
  }

  /** The number that is written, without its sign. */
  function Written(number: Numeral): real
    requires number.Numeral?
  {
    Target(Decimal(number.digits), number.exponent - number.fraction)
  }

  /** What Strtod returns for a number that is not zero is at most one pattern from the correct rounding, and is
      that rounding if the number is farther than one part in 2^60 from every halfway point. */
  lemma PatternNearCorrect(bits: nat, number: Numeral)
    requires number.Numeral? && IsPatternOf(bits, number) && Decimal(number.digits) != 0
    ensures var m, x := MagnitudeBits(bits, number), Written(number);
            && m >= 0 && (exists c: nat :: IsRounded(x, c))
            && (forall c: nat | IsRounded(x, c) :: c - 1 <= m <= c + 1)
            && ((forall k: nat | k < INFINITY :: Clear(x, TOTAL_ERROR, k)) ==> IsRounded(x, m))
  {
    var m: nat, x := MagnitudeBits(bits, number), Written(number);
    hide IsRounded, Decimal, Target, AddAll, Clear;
    var y :| IsRounded(y, m) && Within(y, x, TOTAL_ERROR);
    assert NearlyRounded(x, m);
    var best := RoundingExists(x);
    forall c: nat | IsRounded(x, c) ensures c - 1 <= m <= c + 1 {
      NextToCorrect(x, m, c);
    }
    if forall k: nat | k < INFINITY :: Clear(x, TOTAL_ERROR, k) {
      CorrectWhenClear(x, m);
    }
  }
}
