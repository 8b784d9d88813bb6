/** How far the scaled mantissa of source/strtod.c is from the exact decimal number. */
module StrtodError {
  import opened Double
  import opened StrtodScale

  // ---- powers of ten ----

  function Pow10(e: int): (p: real)
    ensures p > 0.0
    decreases if e < 0 then -e else e
  {
    if e == 0 then 1.0 else if e > 0 then 10.0 * Pow10(e - 1) else Pow10(e + 1) / 10.0
  }

  lemma Pow10Next(e: int)
    ensures Pow10(e + 1) == 10.0 * Pow10(e)
  {
  }

  lemma TenTimes(a: real, b: real)
    ensures 10.0 * (a * b) == a * (10.0 * b)
  {
  }

  lemma Pow10Zero()
    ensures Pow10(0) == 1.0
  {
  }

  lemma {:induction false} Pow10Add(e: int, n: nat)
    ensures Pow10(e + n) == Pow10(e) * Pow10(n)
    decreases n
  {
    hide Pow10;
    Pow10Zero();
    if n > 0 {
      Pow10Add(e, n - 1);
      Pow10Next(e + (n - 1));
      Pow10Next(n - 1);
      TenTimes(Pow10(e), Pow10(n - 1));
    }
  }

  lemma {:induction false} Pow10IsPower(n: nat)
    ensures Pow10(n) == Power(10, n) as real
  {
    if n > 0 {
      Pow10IsPower(n - 1);
    }
  }

  lemma Cancel(a: real, b: real, c: real)
    requires b * c == 1.0
    ensures a * b * c == a
  {
    Associate(a, b, c);
  }

  lemma Associate(a: real, b: real, c: real)
    ensures a * b * c == a * (b * c)
  {
  }

  lemma Pow10Inverse(n: int)
    requires n >= 0
    ensures Pow10(-n) * Pow10(n) == 1.0
  {
    Pow10Add(-n, n);
    Pow10Zero();
    hide Pow10;
    assert -n + n == 0;
  }

  lemma Pow10Sum(a: int, b: int)
    ensures Pow10(a + b) == Pow10(a) * Pow10(b)
  {
    hide Pow10;
    if b >= 0 {
      Pow10Add(a, b);
    } else {
      Pow10Add(a + b, -b);
      Pow10Inverse(-b);
      Cancel(Pow10(a + b), Pow10(-b), Pow10(b));
    }
  }

  lemma Pow2Inverse(n: int)
    requires n >= 0
    ensures Pow2(-n) * Pow2(n) == 1.0
  {
    Pow2Add(-n, n);
    Pow2Zero();
    hide Pow2;
    assert -n + n == 0;
  }

  lemma Pow2Sum(a: int, b: int)
    ensures Pow2(a + b) == Pow2(a) * Pow2(b)
  {
    hide Pow2;
    if b >= 0 {
      Pow2Add(a, b);
    } else {
      Pow2Add(a + b, -b);
      Pow2Inverse(-b);
      Cancel(Pow2(a + b), Pow2(-b), Pow2(b));
    }
  }

  // ---- nearness ----

  /** 2^-70 */
  const STEP_ERROR: real := 1.0 / 1180591620717411303424.0

  /** One part in 2^70. */
  function Part(x: real): real {
    STEP_ERROR * x
  }

  /** v differs from x by at most n parts in 2^70. */
  ghost predicate Near(v: real, x: real, n: nat) {
    && x > 0.0
    && x - Scaled(n, Part(x)) <= v <= x + Scaled(n, Part(x))
  }

  lemma ScaledTimes(n: nat, x: real, rho: real)
    ensures Scaled(n, Part(x)) * rho == Scaled(n, Part(x * rho))
  {
    Associate(n as real, STEP_ERROR * x, rho);
    Associate(STEP_ERROR, x, rho);
  }

  lemma Order(a: real, b: real, rho: real)
    requires a <= b && rho > 0.0
    ensures a * rho <= b * rho
  {
  }

  lemma Distribute(a: real, b: real, rho: real)
    ensures (a + b) * rho == a * rho + b * rho
    ensures (a - b) * rho == a * rho - b * rho
  {
  }

  lemma NearTimes(v: real, x: real, n: nat, rho: real)
    requires Near(v, x, n) && rho > 0.0
    ensures Near(v * rho, x * rho, n)
  {
    hide Scaled, Part;
    var s := Scaled(n, Part(x));
    ScaledTimes(n, x, rho);
    Order(x - s, v, rho);
    Order(v, x + s, rho);
    Distribute(x, s, rho);
    PositiveTimes(x, rho);
  }

  lemma PositiveTimes(x: real, rho: real)
    requires x > 0.0 && rho > 0.0
    ensures x * rho > 0.0
  {
  }

  // ---- one step ----

  /** 2^-72 */
  const TABLE_ERROR: real := 1.0 / 4722366482869645213696.0

  /** What a row of the table multiplies by, and what it should multiply by. */
  function Factor(e: Entry): (p: real)
  {
    Scaled(Multiplier(e), Pow2(e.binExp - 72))
  }

  function Exponent(e: Entry, down: bool): int {
    if down then -(e.decExp as int) else e.decExp
  }

  predicate Accurate(e: Entry, down: bool) {
    var p := Pow10(Exponent(e, down));
    p - TABLE_ERROR * p <= Factor(e) <= p + TABLE_ERROR * p
  }

  /** The factor of a row is within one part in 2^72 of the power of ten, given the same of integers. */
  lemma AccurateUp(e: Entry)
    requires IsEntry(e) && e.binExp >= 0 && Multiplier(e) * Power(2, e.binExp) == Power(10, e.decExp) * B72
    ensures Accurate(e, false)
  {
    hide Pow2, Pow10, Power, Multiplier, Scaled;
    Pow2Sum(e.binExp, -72);
    Pow2Sum(72, -72);
    Pow2IsPower(e.binExp);
    Pow10IsPower(e.decExp);
    Power72();
    Pow2IsPower(72);
    Pow2Zero();
    UpFactor(Multiplier(e), Power(2, e.binExp), Power(10, e.decExp), Pow2(-72));
    PositiveTimes(Pow10(e.decExp), TABLE_ERROR);
  }

  lemma UpFactor(m: nat, two: nat, ten: nat, u: real)
    requires m * two == ten * B72 && B72 as real * u == 1.0
    ensures Scaled(m, two as real * u) == ten as real
  {
    assert (m * two) as real == m as real * two as real;
    Associate(m as real, two as real, u);
    Associate(ten as real, B72 as real, u);
  }

  lemma Power72()
    ensures Power(2, 72) == B72
  {
    assert Power(2, 8) == 256;
    PowersOfTwo();
    PowerAdd(2, 64, 8);
  }

  /** The difference of two numbers. */
  function Gap(a: nat, b: nat): nat {
    if a < b then b - a else a - b
  }

  lemma DownFactor(m: nat, two: nat, ten: nat, u: real, p: real)
    requires Scaled(two, u) == 1.0 && Scaled(ten, p) == 1.0 && u > 0.0 && p > 0.0
    requires Gap(m * ten, two) * B72 <= two
    ensures p - TABLE_ERROR * p <= Scaled(m, u) <= p + TABLE_ERROR * p
  {
    hide Scaled;
    var diff, a := Gap(m * ten, two), Scaled(m * ten, u);
    ScaledGrows(diff * B72, two, u);
    ScaledTwice(B72, diff, u);
    Small(Scaled(diff, u));
    if m * ten < two {
      ScaledSum(m * ten, diff, u);
    } else {
      ScaledSum(two, diff, u);
    }
    assert 1.0 - TABLE_ERROR <= a <= 1.0 + TABLE_ERROR by { ScaledGrows(0, diff, u); Nothing(u); }
    ScaledTwice(m, ten, u);
    Exchange(m, ten, u, p, a);
    Around(a, p, Scaled(m, u));
  }

  lemma Around(a: real, p: real, y: real)
    requires 1.0 - TABLE_ERROR <= a <= 1.0 + TABLE_ERROR && p > 0.0 && y == a * p
    ensures p - TABLE_ERROR * p <= y <= p + TABLE_ERROR * p
  {
    Order(1.0 - TABLE_ERROR, a, p);
    Order(a, 1.0 + TABLE_ERROR, p);
    Distribute(1.0, TABLE_ERROR, p);
  }

  lemma Nothing(u: real)
    ensures Scaled(0, u) == 0.0
  {
  }

  lemma Small(x: real)
    ensures Scaled(B72, x) <= 1.0 ==> x <= TABLE_ERROR
  {
  }

  lemma Exchange(m: nat, ten: nat, u: real, p: real, a: real)
    requires Scaled(ten, p) == 1.0 && a == Scaled(m, Scaled(ten, u))
    ensures a * p == Scaled(m, u)
  {
    Associate(m as real, Scaled(ten, u), p);
    Associate(ten as real, u, p);
    Associate(ten as real, p, u);
  }

  lemma AccurateDown(e: Entry)
    requires IsEntry(e) && e.binExp < 0
    requires Gap(Multiplier(e) * Power(10, e.decExp), Power(2, 72 - e.binExp)) * B72 <= Power(2, 72 - e.binExp)
    ensures Accurate(e, true)
  {
    hide Pow2, Pow10, Power, Multiplier, Scaled;
    var k, d := 72 - e.binExp, e.decExp as int;
    Pow2Inverse(k);
    Pow10Inverse(d);
    Pow2IsPower(k);
    Pow10IsPower(d);
    ScaledIs(Power(2, k), Pow2(-k));
    ScaledIs(Power(10, d), Pow10(-d));
    assert -k == e.binExp - 72;
    DownFactor(Multiplier(e), Power(2, k), Power(10, d), Pow2(-k), Pow10(-d));
  }

  lemma ScaledIs(n: nat, u: real)
    ensures Scaled(n, u) == u * n as real
  {
  }

  // ---- the rows of the table ----

  lemma TableUp(e: Entry)
    requires e == UP_31 || e == UP_3 || e == UP_1
    ensures Accurate(e, false)
  {
    hide Accurate;
    assert Multiplier(e) * Power(2, e.binExp) == Power(10, e.decExp) * B72 by {
      PowersUp();
      hide Power;
    }
    AccurateUp(e);
  }

  lemma PowersUp()
    ensures Power(2, 4) == 16 && Power(2, 10) == 1024 && Power(2, 103) == 0x80_0000_0000_0000_0000_0000_0000
    ensures Power(10, 1) == 10 && Power(10, 3) == 1000 && Power(10, 31) == 10000000000000000000000000000000
  {
    PowersOfTwo();
    TensTo31();
    assert Power(2, 4) == 16 && Power(10, 1) == 10 && Power(10, 3) == 1000;
    hide Power;
    PowerAdd(2, 52, 51);
  }

  lemma TensTo31()
    ensures Power(10, 7) == 10000000 && Power(10, 8) == 100000000 && Power(10, 31) == 10000000000000000000000000000000
  {
    assert Power(10, 7) == 10000000;
    assert Power(10, 8) == 100000000;
    hide Power;
    PowerAdd(10, 8, 8);
    PowerAdd(10, 16, 8);
    PowerAdd(10, 24, 7);
  }

  lemma PowersDown()
    ensures Power(2, 75) == 0x800_0000_0000_0000_0000 && Power(2, 95) == 0x8000_0000_0000_0000_0000_0000
    ensures Power(2, 218) == 0x400_0000_0000_0000_0000_0000_0000_0000_0000_0000_0000_0000_0000_0000
    ensures Power(10, 1) == 10 && Power(10, 7) == 10000000
    ensures Power(10, 44) == 100000000000000000000000000000000000000000000
  {
    PowersOfTwo();
    PowersUp();
    TensTo31();
    assert Power(10, 5) == 100000 && Power(2, 20) == 1048576;
    hide Power;
    PowerAdd(2, 64, 11);
    PowerAdd(2, 20, 11);
    PowerAdd(2, 64, 31);
    PowerAdd(2, 63, 52);
    PowerAdd(2, 103, 115);
    PowerAdd(10, 8, 5);
    PowerAdd(10, 31, 13);
  }

  lemma TableDown(e: Entry)
    requires e == DOWN_44 || e == DOWN_7 || e == DOWN_1
    ensures Accurate(e, true)
  {
    hide Accurate;
    assert Gap(Multiplier(e) * Power(10, e.decExp), Power(2, 72 - e.binExp)) * B72 <= Power(2, 72 - e.binExp) by {
      PowersDown();
      hide Power;
    }
    AccurateDown(e);
  }

  // ---- the error of one multiplication ----

  /** 2^-73 */
  const CUT_ERROR: real := 1.0 / 9444732965739290427392.0

  const B93: nat := 0x2000_0000_0000_0000_0000_0000

  /** The number a word stands for. */
  function WordValue(w: nat, bine: int): real {
    Scaled(w, Pow2(bine - 95))
  }

  /** Cutting a word of at least 2^93 by less than 2^20 loses at most one part in 2^73. */
  lemma CutLoss(full: nat, v: nat, kappa: real)
    requires v * B72 <= full < (v + 0x10_0000) * B72 && v >= B93 && kappa > 0.0
    ensures var g := Scaled(full, kappa); g - CUT_ERROR * g <= Scaled(v * B72, kappa) <= g
  {
    hide Scaled;
    ScaledGrows(v * B72, full, kappa);
    ScaledGrows(full, (v + 0x10_0000) * B72, kappa);
    assert (v + 0x10_0000) * B72 == v * B72 + 0x10_0000 * B72;
    ScaledSum(v * B72, 0x10_0000 * B72, kappa);
    ScaledGrows(0x200_0000_0000_0000_0000 * (0x10_0000 * B72), v * B72, kappa);
    ScaledTwice(0x200_0000_0000_0000_0000, 0x10_0000 * B72, kappa);
    PartOf(Scaled(0x10_0000 * B72, kappa), Scaled(v * B72, kappa));
  }

  lemma PartOf(x: real, y: real)
    requires Scaled(0x200_0000_0000_0000_0000, x) <= y
    ensures x <= CUT_ERROR * y
  {
  }

  /** One unit of kappa holds the old word times the multiplier, and the new word. */
  lemma StepUnits(w: nat, v: nat, e: Entry, bine: int) returns (kappa: real)
    ensures kappa > 0.0
    ensures WordValue(w, bine) * Factor(e) == Scaled(Mul(w, Multiplier(e)), kappa)
    ensures WordValue(v, bine + e.binExp) == Scaled(v * B72, kappa)
  {
    hide Pow2, Scaled, Mul, Multiplier;
    var u, t := Pow2(bine - 95), Pow2(e.binExp - 72);
    kappa := u * t;
    PositiveTimes(u, t);
    Factored(w, Multiplier(e), u, t);
    Pow2Sum(bine - 95, e.binExp - 72);
    Pow2Scaled(bine - 95 + (e.binExp - 72), 72);
    Power72();
    assert bine - 95 + (e.binExp - 72) + 72 == bine + e.binExp - 95;
    assert Pow2(bine + e.binExp - 95) == Scaled(B72, kappa);
    ScaledTwice(v, B72, kappa);
  }

  lemma Factored(w: nat, m: nat, u: real, t: real)
    ensures Scaled(w, u) * Scaled(m, t) == Scaled(Mul(w, m), u * t)
  {
    assert (w * m) as real == w as real * m as real;
    var a, b := w as real, m as real;
    Associate(a, u, b * t);
    Associate(u, b, t);
    Associate(b, u, t);
    Associate(a, b, u * t);
  }

  /** The differences of one step add up. */
  lemma StepSum(a: real, b: real, k: real, g: real, v': real)
    requires b > 0.0 && 0.0 <= k <= b && b - k <= a <= b + k
    requires a - TABLE_ERROR * a <= g <= a + TABLE_ERROR * a && a >= 0.0
    requires g - CUT_ERROR * g <= v' <= g
    ensures b - (k + Part(b)) <= v' <= b + (k + Part(b))
  {
  }

  lemma Slack(n: nat, x: real)
    requires n < 64 && x > 0.0
    ensures 0.0 <= Scaled(n, Part(x)) <= x
    ensures Scaled(n + 1, Part(x)) == Scaled(n, Part(x)) + Part(x)
  {
    ScaledGrows(n, 64, Part(x));
    ScaledGrows(0, n, Part(x));
    ScaledSum(n, 1, Part(x));
    assert Scaled(1, Part(x)) == Part(x) && Scaled(0, Part(x)) == 0.0;
    assert Scaled(64, Part(x)) <= x;
    hide Scaled;
  }

  /** One multiplication of the loop moves the word by the power of ten, and the error by one step. */
  lemma StepNear(w: nat, v: nat, e: Entry, bine: int, x: real, n: nat, down: bool, y: real)
    requires y == x * Pow10(Exponent(e, down))
    requires Near(WordValue(w, bine), x, n) && n < 64 && Accurate(e, down)
    requires v * B72 <= Mul(w, Multiplier(e)) < (v + 0x10_0000) * B72 && v >= B93
    ensures Near(WordValue(v, bine + e.binExp), y, n + 1)
  {
    hide Scaled, Pow10, Pow2, Mul, Multiplier, Factor, WordValue, Exponent, Part;
    var rho, value := Pow10(Exponent(e, down)), WordValue(w, bine);
    var a, b := value * rho, x * rho;
    NearTimes(value, x, n, rho);
    Slack(n, b);
    Slack(n, x);
    var kappa := StepUnits(w, v, e, bine);
    CutLoss(Mul(w, Multiplier(e)), v, kappa);
    assert b == y;
    FactorTimes(value, Factor(e), rho);
    StepSum(a, b, Scaled(n, Part(b)), value * Factor(e), WordValue(v, bine + e.binExp));
  }

  lemma FactorTimes(value: real, f: real, rho: real)
    requires value >= 0.0 && rho > 0.0 && rho - TABLE_ERROR * rho <= f <= rho + TABLE_ERROR * rho
    ensures var a := value * rho; a >= 0.0 && a - TABLE_ERROR * a <= value * f <= a + TABLE_ERROR * a
  {
    if value > 0.0 {
      Order(rho - TABLE_ERROR * rho, f, value);
      Order(f, rho + TABLE_ERROR * rho, value);
      Distribute(rho, TABLE_ERROR * rho, value);
      Associate(TABLE_ERROR, rho, value);
      PositiveTimes(value, rho);
    }
  }
}
