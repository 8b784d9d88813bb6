/** The scaling loop of source/strtod.c, with its table of multipliers. */
module StrtodLoop {
  import opened Double
  import opened StrtodScale
  import opened StrtodError

  // ---- how long a word stays large without normalisation ----

  const B95: nat := 0x8000_0000_0000_0000_0000_0000

  /** A lower bound for a normalised word after j multiplications by the same row. */
  function LowerWord(e: Entry, j: nat): int {
    if j == 0 then B95 else LowerWord(e, j - 1) * Multiplier(e) / B72 - 0x10_0000
  }

  /** How often a row can be used in succession. */
  function Uses(e: Entry): nat {
    if e == UP_31 then 11 else if e == UP_3 then 10 else if e == UP_1 then 2 else if e == DOWN_44 then 7 else 6
  }

  lemma {:induction false} LowerFalls(e: Entry, j: nat)
    requires IsEntry(e) && LowerWord(e, j + 1) >= 0
    ensures LowerWord(e, j + 1) <= LowerWord(e, j)
  {
    MultiplierBound(e);
    hide Multiplier;
    var l := LowerWord(e, j);
    assert LowerWord(e, j + 1) == l * Multiplier(e) / B72 - 0x10_0000;
    hide LowerWord;
    LessOf(l, Multiplier(e));
  }

  lemma LessOf(l: int, m: nat)
    requires m < B72 && l * m / B72 >= 0x10_0000
    ensures l * m / B72 <= l
  {
  }

  predicate IsRow(e: Entry) {
    e == UP_31 || e == UP_3 || e == UP_1 || e == DOWN_44 || e == DOWN_7 || e == DOWN_1
  }

  lemma LastUse(e: Entry)
    requires IsRow(e)
    ensures LowerWord(e, Uses(e)) >= B93
  {
    hide LowerWord;
    LastUses();
    LastUseOf31();
  }

  lemma LastUses()
    ensures LowerWord(UP_3, 10) >= B93 && LowerWord(UP_1, 2) >= B93
    ensures LowerWord(DOWN_44, 7) >= B93 && LowerWord(DOWN_7, 6) >= B93 && LowerWord(DOWN_1, 6) >= B93
  {
    hide LowerWord;
    LastUseOf3();
    LastUseOfTen();
    LastUseOf44();
    LastUseOf7();
    LastUseOf1();
  }

  /** One more use. */
  lemma NextBound(e: Entry, m: nat, j: nat, l: int, next: int)
    requires Multiplier(e) == m && LowerWord(e, j) == l && next == l * m / B72 - 0x10_0000
    ensures LowerWord(e, j + 1) == next
  {
    assert LowerWord(e, j + 1) == LowerWord(e, j) * Multiplier(e) / B72 - 0x10_0000;
  }

  lemma LastUseOf31()
    ensures LowerWord(UP_31, 11) >= B93
  {
    var m := 0x00FC_6F7C_4045_8122_964D;
    MultiplierIsNumber(UP_31, m);
    FirstBound(UP_31);
    hide LowerWord, Multiplier, UP_31;
    NextBound(UP_31, m, 0, B95, 0x7E37_BE20_22C0_914B_2670_0000);
    NextBound(UP_31, m, 1, 0x7E37_BE20_22C0_914B_2670_0000, 0x7C75_D695_C270_6AC5_E950_7DCB);
    NextBound(UP_31, m, 2, 0x7C75_D695_C270_6AC5_E950_7DCB, 0x7ABA_32BB_C986_B280_6518_4CC2);
    NextBound(UP_31, m, 3, 0x7ABA_32BB_C986_B280_6518_4CC2, 0x7904_BC3D_DA3E_B5C2_5FF5_1934);
    NextBound(UP_31, m, 4, 0x7904_BC3D_DA3E_B5C2_5FF5_1934, 0x7755_5D17_2EDF_B3C2_4A8F_4797);
    NextBound(UP_31, m, 5, 0x7755_5D17_2EDF_B3C2_4A8F_4797, 0x75AB_FF91_7E06_3CAC_D429_A244);
    NextBound(UP_31, m, 6, 0x75AB_FF91_7E06_3CAC_D429_A244, 0x7408_8E43_E2E0_DD4C_E411_D91C);
    NextBound(UP_31, m, 7, 0x7408_8E43_E2E0_DD4C_E411_D91C, 0x726A_F411_C952_028A_875B_E8CE);
    NextBound(UP_31, m, 8, 0x726A_F411_C952_028A_875B_E8CE, 0x70D3_1C29_DDE9_3228_AEB3_FDCB);
    NextBound(UP_31, m, 9, 0x70D3_1C29_DDE9_3228_AEB3_FDCB, 0x6F40_F205_01A5_E7A7_FB6D_692A);
    NextBound(UP_31, m, 10, 0x6F40_F205_01A5_E7A7_FB6D_692A, 0x6DB4_6165_4176_9502_D295_8DBA);
  }

  lemma LastUseOf3()
    ensures LowerWord(UP_3, 10) >= B93
  {
    var m := 0x00FA_0000_0000_0000_0000;
    MultiplierIsNumber(UP_3, m);
    FirstBound(UP_3);
    hide LowerWord, Multiplier, UP_3;
    NextBound(UP_3, m, 0, B95, 0x7CFF_FFFF_FFFF_FFFF_FFF0_0000);
    NextBound(UP_3, m, 1, 0x7CFF_FFFF_FFFF_FFFF_FFF0_0000, 0x7A11_FFFF_FFFF_FFFF_FFE0_6000);
    NextBound(UP_3, m, 2, 0x7A11_FFFF_FFFF_FFFF_FFE0_6000, 0x7735_93FF_FFFF_FFFF_FFD1_1DC0);
    NextBound(UP_3, m, 3, 0x7735_93FF_FFFF_FFFF_FFD1_1DC0, 0x746A_5287_FFFF_FFFF_FFC2_370D);
    NextBound(UP_3, m, 4, 0x746A_5287_FFFF_FFFF_FFC2_370D, 0x71AF_D498_CFFF_FFFF_FFB3_A9C2);
    NextBound(UP_3, m, 5, 0x71AF_D498_CFFF_FFFF_FFB3_A9C2, 0x6F05_B59D_3B1F_FFFF_FFA5_73C7);
    NextBound(UP_3, m, 6, 0x6F05_B59D_3B1F_FFFF_FFA5_73C7, 0x6C6B_935B_8BBD_3FFF_FF97_9310);
    NextBound(UP_3, m, 7, 0x6C6B_935B_8BBD_3FFF_FF97_9310, 0x69E1_0DE7_6676_D07F_FF8A_059D);
    NextBound(UP_3, m, 8, 0x69E1_0DE7_6676_D07F_FF8A_059D, 0x6765_C793_FA10_079C_FF7C_C97B);
    NextBound(UP_3, m, 9, 0x6765_C793_FA10_079C_FF7C_C97B, 0x64F9_64E6_8233_A76F_516F_DCC2);
  }

  lemma LastUseOfTen()
    ensures LowerWord(UP_1, 2) >= B93
  {
    var m := 0x00A0_0000_0000_0000_0000;
    MultiplierIsNumber(UP_1, m);
    FirstBound(UP_1);
    hide LowerWord, Multiplier, UP_1;
    NextBound(UP_1, m, 0, B95, 0x4FFF_FFFF_FFFF_FFFF_FFF0_0000);
    NextBound(UP_1, m, 1, 0x4FFF_FFFF_FFFF_FFFF_FFF0_0000, 0x31FF_FFFF_FFFF_FFFF_FFE6_0000);
  }

  lemma LastUseOf44()
    ensures LowerWord(DOWN_44, 7) >= B93
  {
    var m := 0x00E4_5C10_C42A_2B3B_058D;
    MultiplierIsNumber(DOWN_44, m);
    FirstBound(DOWN_44);
    hide LowerWord, Multiplier, DOWN_44;
    NextBound(DOWN_44, m, 0, B95, 0x722E_0862_1515_9D82_C670_0000);
    NextBound(DOWN_44, m, 1, 0x722E_0862_1515_9D82_C670_0000, 0x65DA_0F7C_BC9A_35E5_27B7_0AA4);
    NextBound(DOWN_44, m, 2, 0x65DA_0F7C_BC9A_35E5_27B7_0AA4, 0x5ADA_D6D4_557F_C05C_06EB_035D);
    NextBound(DOWN_44, m, 3, 0x5ADA_D6D4_557F_C05C_06EB_035D, 0x510B_93ED_9C65_8017_DC85_CE89);
    NextBound(DOWN_44, m, 4, 0x510B_93ED_9C65_8017_DC85_CE89, 0x484B_7537_9C24_4C27_A028_EF4F);
    NextBound(DOWN_44, m, 5, 0x484B_7537_9C24_4C27_A028_EF4F, 0x407D_343F_C40E_3FC7_3EA2_A56A);
    NextBound(DOWN_44, m, 6, 0x407D_343F_C40E_3FC7_3EA2_A56A, 0x3986_B3C0_CF46_9177_DC1A_984C);
  }

  lemma LastUseOf7()
    ensures LowerWord(DOWN_7, 6) >= B93
  {
    var m := 0x00D6_BF94_D5E5_7A42_BC3D;
    MultiplierIsNumber(DOWN_7, m);
    FirstBound(DOWN_7);
    hide LowerWord, Multiplier, DOWN_7;
    NextBound(DOWN_7, m, 0, B95, 0x6B5F_CA6A_F2BD_215E_1E70_0000);
    NextBound(DOWN_7, m, 1, 0x6B5F_CA6A_F2BD_215E_1E70_0000, 0x5A12_6E1A_84AE_6C07_A97A_6BCD);
    NextBound(DOWN_7, m, 2, 0x5A12_6E1A_84AE_6C07_A97A_6BCD, 0x4B8E_D028_3A6D_3DF7_699D_707B);
    NextBound(DOWN_7, m, 3, 0x4B8E_D028_3A6D_3DF7_699D_707B, 0x3F61_ED7C_A0C0_3283_6284_D51A);
    NextBound(DOWN_7, m, 4, 0x3F61_ED7C_A0C0_3283_6284_D51A, 0x352B_4B6F_F0F4_1DE1_E4DE_EEDA);
    NextBound(DOWN_7, m, 5, 0x352B_4B6F_F0F4_1DE1_E4DE_EEDA, 0x2C99_FB46_503C_7187_14FC_59A1);
  }

  lemma LastUseOf1()
    ensures LowerWord(DOWN_1, 6) >= B93
  {
    var m := 0x00CC_CCCC_CCCC_CCCC_CCCD;
    MultiplierIsNumber(DOWN_1, m);
    FirstBound(DOWN_1);
    hide LowerWord, Multiplier, DOWN_1;
    NextBound(DOWN_1, m, 0, B95, 0x6666_6666_6666_6666_6670_0000);
    NextBound(DOWN_1, m, 1, 0x6666_6666_6666_6666_6670_0000, 0x51EB_851E_B851_EB85_1EC4_7AE1);
    NextBound(DOWN_1, m, 2, 0x51EB_851E_B851_EB85_1EC4_7AE1, 0x4189_374B_C6A7_EF9D_B237_2B01);
    NextBound(DOWN_1, m, 3, 0x4189_374B_C6A7_EF9D_B237_2B01, 0x346D_C5D6_3886_594A_F4F6_0AA5);
    NextBound(DOWN_1, m, 4, 0x346D_C5D6_3886_594A_F4F6_0AA5, 0x29F1_6B11_C6D1_E108_C3F2_84DE);
    NextBound(DOWN_1, m, 5, 0x29F1_6B11_C6D1_E108_C3F2_84DE, 0x218D_EF41_6BDB_1A6D_6987_342D);
  }

  lemma MultiplierIsNumber(e: Entry, m: nat)
    requires m == e.h * B40 + e.m * 0x100 + e.l
    ensures Multiplier(e) == m
  {
  }

  lemma {:induction false} LowerEnough(e: Entry, j: nat)
    requires IsRow(e) && IsEntry(e) && j <= Uses(e)
    ensures LowerWord(e, j) >= B93
    decreases Uses(e) - j
  {
    hide LowerWord;
    if j == Uses(e) {
      LastUse(e);
    } else {
      LowerEnough(e, j + 1);
      LowerFalls(e, j);
    }
  }

  /** A multiplication keeps the word above the next bound. */
  lemma LowerKept(e: Entry, j: nat, w: nat, v: nat)
    requires IsRow(e) && IsEntry(e) && j < Uses(e) && w >= LowerWord(e, j)
    requires v * B72 <= Mul(w, Multiplier(e)) < (v + 0x10_0000) * B72
    ensures v >= LowerWord(e, j + 1) && v >= B93
  {
    LowerEnough(e, j + 1);
    LowerEnough(e, j);
    var l := LowerWord(e, j);
    assert LowerWord(e, j + 1) == l * Multiplier(e) / B72 - 0x10_0000;
    hide LowerWord, Multiplier;
    Below(l, w, Multiplier(e));
    AtLeast(Mul(l, Multiplier(e)), v);
  }

  lemma AtLeast(p: nat, v: nat)
    requires p < (v + 0x10_0000) * B72
    ensures v >= p / B72 - 0x10_0000
  {
  }

  // ---- how many multiplications there are ----

  /** The number of multiplications for a power of ten. */
  function Steps(down: bool, mexp: nat): nat {
    if mexp == 0 then 0 else 1 + Steps(down, mexp - Row(down, mexp).decExp)
  }

  const MAX_EXP_MAGNITUDE: nat := 345

  lemma StepsNext(down: bool, mexp: nat)
    requires mexp > 0
    ensures Steps(down, mexp) == 1 + Steps(down, mexp - Row(down, mexp).decExp)
    ensures Row(down, mexp).decExp == if down then (if mexp >= 44 then 44 else if mexp >= 7 then 7 else 1)
                                      else (if mexp >= 31 then 31 else if mexp >= 3 then 3 else 1)
  {
  }

  /** The number of multiplications with rows for 10^a, 10^b and 10. */
  function Uses3(mexp: nat, a: nat, b: nat): nat
    requires 0 < a && 0 < b
  {
    Quotient(mexp, a) + Quotient(mexp % a, b) + mexp % a % b
  }

  function Quotient(m: nat, d: nat): nat
    requires 0 < d
  {
    m / d
  }

  lemma Uses3Next(mexp: nat, a: nat, b: nat)
    requires 1 < b < a && 0 < mexp
    ensures var d := if mexp >= a then a else if mexp >= b then b else 1;
            Uses3(mexp, a, b) == 1 + Uses3(mexp - d, a, b)
  {
    if mexp >= a {
      Minus(mexp, a);
    } else if mexp >= b {
      Minus(mexp, b);
      Little(mexp, a);
      Little(mexp - b, a);
    } else {
      Little(mexp, a);
      Little(mexp - 1, a);
      Little(mexp, b);
      Little(mexp - 1, b);
    }
  }

  lemma Minus(m: nat, a: nat)
    requires 0 < a <= m
    ensures m / a == 1 + (m - a) / a && m % a == (m - a) % a
  {
    QuotientIs(m, a, 1 + (m - a) / a, (m - a) % a);
  }

  lemma Little(m: nat, a: nat)
    requires m < a
    ensures m / a == 0 && m % a == m
  {
  }

  lemma {:induction false} StepsUp(mexp: nat)
    ensures Steps(false, mexp) == Uses3(mexp, 31, 3)
  {
    NoSteps(false);
    hide Steps, Row;
    if mexp > 0 {
      StepsNext(false, mexp);
      Uses3Next(mexp, 31, 3);
      hide Uses3;
      StepsUp(mexp - Row(false, mexp).decExp);
    }
  }

  lemma {:induction false} StepsDown(mexp: nat)
    ensures Steps(true, mexp) == Uses3(mexp, 44, 7)
  {
    NoSteps(true);
    hide Steps, Row;
    if mexp > 0 {
      StepsNext(true, mexp);
      Uses3Next(mexp, 44, 7);
      hide Uses3;
      StepsDown(mexp - Row(true, mexp).decExp);
    }
  }

  /** There are at most 23. */
  lemma StepsBound(down: bool, mexp: nat)
    requires mexp <= MAX_EXP_MAGNITUDE
    ensures Steps(down, mexp) <= 23
  {
    hide Steps;
    if down {
      StepsDown(mexp);
    } else {
      StepsUp(mexp);
    }
  }

  // ---- the scaling loop ----

  function Signed(down: bool, n: int): int {
    if down then -n else n
  }

  lemma RowFacts(down: bool, mexp: nat, start: nat, j: nat)
    requires 0 < start <= MAX_EXP_MAGNITUDE && mexp <= start
    requires var e := Row(down, start); mexp >= e.decExp && mexp + j * e.decExp == start
    ensures var e := Row(down, start);
            IsRow(e) && IsEntry(e) && j < Uses(e) && Accurate(e, down) && Row(down, mexp) == e
            && Exponent(e, down) == Signed(down, e.decExp)
  {
    var e := Row(down, start);
    StepsNext(down, start);
    RowOf(down, start);
    RowOf(down, mexp);
    hide Row, Steps, Accurate;
    if down {
      TableDown(e);
    } else {
      TableUp(e);
    }
    UsesBound(down, start, mexp, j, e);
  }

  lemma RowOf(down: bool, mexp: nat)
    requires mexp > 0
    ensures Row(down, mexp) == if down then (if mexp >= 44 then DOWN_44 else if mexp >= 7 then DOWN_7 else DOWN_1)
                               else (if mexp >= 31 then UP_31 else if mexp >= 3 then UP_3 else UP_1)
  {
  }

  lemma UsesBound(down: bool, start: nat, mexp: nat, j: nat, e: Entry)
    requires 0 < start <= MAX_EXP_MAGNITUDE && mexp >= e.decExp && mexp + j * e.decExp == start
    requires e == if down then (if start >= 44 then DOWN_44 else if start >= 7 then DOWN_7 else DOWN_1)
                  else (if start >= 31 then UP_31 else if start >= 3 then UP_3 else UP_1)
    ensures j < Uses(e)
  {
    if down {
      if start >= 44 {
        assert mexp + j * 44 == start;
      } else if start >= 7 {
        assert mexp + j * 7 == start;
      }
    } else if start >= 31 {
      assert mexp + j * 31 == start;
    } else if start >= 3 {
      assert mexp + j * 3 == start;
    }
  }

  /** mant * 10^t */
  function Target(mant: nat, t: int): real {
    Scaled(mant, Pow10(t))
  }

  lemma TargetMoves(mant: nat, t: int, d: int)
    ensures Target(mant, t) * Pow10(d) == Target(mant, t + d)
  {
    Pow10Sum(t, d);
    hide Pow10;
    Associate(mant as real, Pow10(t), Pow10(d));
  }

  /** The state of the loop: the word is within n parts in 2^70 of mant * 10^t. */
  ghost predicate Close(w: nat, bine: int, mant: nat, t: int, n: nat) {
    Near(WordValue(w, bine), Target(mant, t), n)
  }

  lemma Loaded(mant: nat)
    requires 0 < mant < B64
    ensures mant >= B32 ==> Close(Word(mant / B32, mant % B32, 0), 63, mant, 0, 0)
    ensures mant < B32 ==> Close(Word(mant, 0, 0), 31, mant, 0, 0)
    ensures mant >= B32 ==> mant / B32 > 0
  {
    hide Close;
    WordParts(mant);
    LoadedAt(mant, 32, B32) by { PowerOf32(); }
    LoadedAt(mant, 64, B64) by { PowersOfTwo(); }
  }

  lemma WordParts(mant: nat)
    ensures Word(mant / B32, mant % B32, 0) == mant * B32 && Word(mant, 0, 0) == mant * B64
  {
  }

  lemma PowerOf32()
    ensures Power(2, 32) == B32
  {
    PowersOfTwo();
    hide Power;
    PowerAdd(2, 11, 10);
    PowerAdd(2, 21, 11);
  }

  /** A mantissa followed by k empty bits. */
  lemma LoadedAt(mant: nat, k: int, p: nat)
    requires 0 < mant && 0 <= k && p == Power(2, k)
    ensures Close(mant * p, 95 - k, mant, 0, 0)
  {
    Pow2Inverse(k);
    Pow2IsPower(k);
    Pow10Zero();
    hide Pow2, Pow10, Power, Part;
    UnitTimes(mant, p, Pow2(-k));
    UnitTarget(mant, Pow10(0));
    assert Scaled(0, Part(mant as real)) == 0.0;
    hide Scaled;
    assert 95 - k - 95 == -k;
  }

  lemma UnitTarget(mant: nat, one: real)
    requires one == 1.0
    ensures Scaled(mant, one) == mant as real
  {
  }

  lemma UnitTimes(mant: nat, p: nat, u: real)
    requires u * p as real == 1.0
    ensures Scaled(mant * p, u) == mant as real
  {
    assert (mant * p) as real == mant as real * p as real;
    Associate(mant as real, p as real, u);
  }

  lemma Normalized(before: nat, after: nat, lz: nat, bine: int)
    requires after == before * Power(2, lz)
    ensures WordValue(after, bine - lz) == WordValue(before, bine)
  {
    hide Pow2, Power;
    Pow2Scaled(bine - lz - 95, lz);
    ScaledTwice(before, Power(2, lz), Pow2(bine - lz - 95));
    assert bine - lz - 95 + lz == bine - 95;
  }

  /** One use of a row. */
  lemma RowUse(w: nat, v: nat, bine: int, mant: nat, t: int, n: nat, down: bool, start: nat, mexp: nat, j: nat)
    requires 0 < start <= MAX_EXP_MAGNITUDE && mexp <= start && n < 23
    requires var e := Row(down, start); mexp >= e.decExp && mexp + j * e.decExp == start
    requires w >= LowerWord(Row(down, start), j) && Close(w, bine, mant, t, n)
    requires v * B72 <= Mul(w, Multiplier(Row(down, start))) < (v + 0x10_0000) * B72
    ensures var e := Row(down, start);
            && v >= LowerWord(e, j + 1) && v >= B93
            && Close(v, bine + e.binExp, mant, t + Signed(down, e.decExp), n + 1)
            && Steps(down, mexp) == 1 + Steps(down, mexp - e.decExp)
  {
    hide LowerWord, Multiplier, Near, WordValue, Target, Accurate, Exponent, Signed, Uses, IsRow, Row, Mul;
    RowFacts(down, mexp, start, j);
    var e := Row(down, start);
    LowerKept(e, j, w, v);
    TargetMoves(mant, t, Exponent(e, down));
    StepNear(w, v, e, bine, Target(mant, t), n, down, Target(mant, t + Exponent(e, down)));
    StepsNext(down, mexp);
  }

  lemma WordLarge(w2: nat, w1: nat, w0: nat)
    requires w2 < B32 && w1 < B32 && w0 < B32
    ensures Word(w2, w1, w0) >= B93 ==> w2 > 0
    ensures w2 >= B32 / 2 ==> Word(w2, w1, w0) >= B95
  {
  }

  lemma FirstBound(e: Entry)
    ensures LowerWord(e, 0) == B95
  {
  }

  /** All uses of the row of the table for mexp. */
  method ScaleByRow(x2: nat, x1: nat, x0: nat, bine0: int, down: bool, start: nat, ghost mant: nat, ghost t0: int,
                    ghost n0: nat)
      returns (w2: nat, w1: nat, w0: nat, bine: int, mexp: nat, ghost n: nat)
    requires B32 / 2 <= x2 < B32 && x1 < B32 && x0 < B32 && 0 < start <= MAX_EXP_MAGNITUDE
    requires Close(Word(x2, x1, x0), bine0, mant, t0, n0) && n0 + Steps(down, start) <= 23
    ensures 0 < w2 < B32 && w1 < B32 && w0 < B32 && mexp < start
    ensures Close(Word(w2, w1, w0), bine, mant, t0 + Signed(down, start - mexp), n)
    ensures n + Steps(down, mexp) == n0 + Steps(down, start)
  {
    hide Word, LowerWord, Close, Steps, Multiplier, Mul;
    w2, w1, w0, bine, mexp, n := x2, x1, x0, bine0, start, n0;
    var e := Row(down, start);
    ghost var j: nat := 0;
    WordLarge(w2, w1, w0);
    FirstBound(e);
    while mexp >= e.decExp
      invariant 0 < w2 < B32 && w1 < B32 && w0 < B32 && mexp <= start
      invariant mexp + j * e.decExp == start && (j == 0 ==> mexp == start) && (mexp == start ==> j == 0)
      invariant Word(w2, w1, w0) >= LowerWord(e, j)
      invariant Close(Word(w2, w1, w0), bine, mant, t0 + Signed(down, start - mexp), n)
      invariant n + Steps(down, mexp) == n0 + Steps(down, start)
    {
      ghost var w := Word(w2, w1, w0);
      StepsPositive(down, mexp);
      w2, w1, w0 := Multiply(w2, w1, w0, e);
      RowUse(w, Word(w2, w1, w0), bine, mant, t0 + Signed(down, start - mexp), n, down, start, mexp, j);
      WordLarge(w2, w1, w0);
      bine := bine + e.binExp;
      mexp := mexp - e.decExp;
      n := n + 1;
      j := j + 1;
    }
  }

  lemma StepsPositive(down: bool, mexp: nat)
    requires mexp > 0
    ensures Steps(down, mexp) > 0
  {
  }

  /** mant * 10^(mexp0 or -mexp0) as a 96-bit word times a power of two: at most 23 truncated
      multiplications, with the word renormalised whenever the row of the table changes. The word is
      normalised, and within 23 parts in 2^70, that is less than one part in 2^64, of the exact number;
      without any multiplication it is exact. */
  method Scale(mant: nat, down: bool, mexp0: nat) returns (w2: nat, w1: nat, w0: nat, bine: int)
    requires 0 < mant < B64 && mexp0 <= MAX_EXP_MAGNITUDE
    ensures B32 / 2 <= w2 < B32 && w1 < B32 && w0 < B32
    ensures Steps(down, mexp0) <= 23 && (mexp0 == 0 ==> w0 == 0 && Steps(down, mexp0) == 0)
    ensures Close(Word(w2, w1, w0), bine, mant, Signed(down, mexp0), Steps(down, mexp0))
  {
    hide Word, Steps, Power, Near, WordValue;
    w2, w1, w0, bine := mant / B32, mant % B32, 0, 63;
    if w2 == 0 {
      w2, w1, bine := w1, 0, 31;
    }
    Loaded(mant);
    StepsBound(down, mexp0);
    NoSteps(down);
    var mexp: nat := mexp0;
    ghost var n: nat := 0;
    while true
      invariant 0 < w2 < B32 && w1 < B32 && w0 < B32 && mexp <= mexp0 && (mexp == mexp0 ==> w0 == 0)
      invariant n + Steps(down, mexp) == Steps(down, mexp0)
      invariant Close(Word(w2, w1, w0), bine, mant, Signed(down, mexp0 - mexp), n)
      decreases mexp
    {
      ghost var before := Word(w2, w1, w0);
      var lz: nat;
      w2, w1, w0, lz := Normalize96(w2, w1, w0);
      Normalized(before, Word(w2, w1, w0), lz, bine);
      bine := bine - lz;
      if mexp == 0 {
        break;
      }
      ghost var t := Signed(down, mexp0 - mexp);
      w2, w1, w0, bine, mexp, n := ScaleByRow(w2, w1, w0, bine, down, mexp, mant, t, n);
    }
  }

  lemma NoSteps(down: bool)
    ensures Steps(down, 0) == 0
  {
  }
}
