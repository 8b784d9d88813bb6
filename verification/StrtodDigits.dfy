/** Reading the digits of a number in source/strtod.c: a 64-bit accumulator that stops growing before
    it can overflow, and a count and a trace of the digits it has dropped. */
module StrtodDigits {
  import opened Bytes
  import opened Double
  import opened StrtodScale

  /** rdVal1:rdVal0, what rdExp counts for dropped digits, and whether lsbits is non-zero. */
  datatype Acc = Acc(value: nat, dropped: nat, lost: bool)

  const NOTHING := Acc(0, 0, false)
  const MAX_VAL: nat := (B64 - 1 - 9) / 10 / B32

  function AddDigit(a: Acc, d: nat): Acc {
    if a.value / B32 < MAX_VAL then a.(value := (a.value * 10 + d) % B64)
    else a.(dropped := a.dropped + 1, lost := a.lost || d != 0)
  }

  function AddAll(a: Acc, ds: seq<nat>): Acc {
    if ds == [] then a else AddDigit(AddAll(a, ds[..|ds| - 1]), ds[|ds| - 1])
  }

  /** The number written by ds. */
  function Decimal(ds: seq<nat>): nat {
    if ds == [] then 0 else Decimal(ds[..|ds| - 1]) * 10 + ds[|ds| - 1]
  }

  predicate AreDigits(ds: seq<nat>) {
    forall i | 0 <= i < |ds| :: ds[i] < 10
  }

  /** What the accumulator a knows of a number: all of it but a rest r of the dropped digits. */
  predicate Accounts(a: Acc, number: nat, r: nat) {
    && a.value < B64
    && number == a.value * Power(10, a.dropped) + r && r < Power(10, a.dropped)
    && (a.lost <==> r != 0)
    && (a.dropped > 0 ==> a.value / B32 >= MAX_VAL)
  }

  lemma TenPower(n: nat)
    ensures Power(10, n + 1) == 10 * Power(10, n) && Power(10, 0) == 1
  {
  }

  lemma DigitAccounted(a: Acc, number: nat, r: nat, d: nat)
    requires Accounts(a, number, r) && d < 10
    ensures a.value / B32 < MAX_VAL ==> a.value * 10 + d < B64
    ensures Accounts(AddDigit(a, d), number * 10 + d, if a.value / B32 < MAX_VAL then 0 else r * 10 + d)
  {
    TenPower(a.dropped);
    hide Power;
    if a.value / B32 < MAX_VAL {
      assert a.dropped == 0;
    } else {
      Shift(a.value, Power(10, a.dropped), r, d);
    }
  }

  lemma Shift(v: nat, p: nat, r: nat, d: nat)
    ensures (v * p + r) * 10 + d == v * (10 * p) + (r * 10 + d)
  {
  }

  /** Decimal accumulation: for any number of digits the accumulator never wraps, the digits write
      value * 10^dropped plus a rest of the dropped digits, and the rest is recorded if it is not zero. */
  lemma {:induction false} DigitsAccounted(ds: seq<nat>) returns (r: nat)
    requires AreDigits(ds)
    ensures Accounts(AddAll(NOTHING, ds), Decimal(ds), r)
    decreases |ds|
  {
    if ds == [] {
      r := 0;
      TenPower(0);
    } else {
      var init, d := ds[..|ds| - 1], ds[|ds| - 1];
      var r0 := DigitsAccounted(init);
      DigitAccounted(AddAll(NOTHING, init), Decimal(init), r0, d);
      r := if AddAll(NOTHING, init).value / B32 < MAX_VAL then 0 else r0 * 10 + d;
    }
    hide Accounts, AddDigit;
  }

  lemma {:induction false} AddMore(a: Acc, ds: seq<nat>, es: seq<nat>)
    ensures AddAll(a, ds + es) == AddAll(AddAll(a, ds), es)
    decreases |es|
  {
    hide AddDigit;
    if es == [] {
      assert ds + es == ds;
    } else {
      var t := ds + es;
      assert t[..|t| - 1] == ds + es[..|es| - 1];
      AddMore(a, ds, es[..|es| - 1]);
    }
  }

  // ---- reading ----

  /** The character at i; the string ends with a zero. */
  function Char(s: bytes, i: nat): byte {
    if i < |s| then s[i] else 0
  }

  predicate IsDigit(c: byte) { 48 <= c <= 57 }

  function DigitsEnd(s: bytes, i: nat): (e: nat)
    ensures i <= e && (i <= |s| ==> e <= |s|)
    decreases |s| - i
  {
    if i < |s| && IsDigit(s[i]) then DigitsEnd(s, i + 1) else i
  }

  function DigitOf(c: byte): (d: nat)
    ensures d < 10
  {
    if IsDigit(c) then c - 48 else 0
  }

  /** The digits s[i..e]. */
  function DigitsOf(s: bytes, i: nat, e: nat): (ds: seq<nat>)
    requires i <= e
    ensures |ds| == e - i && AreDigits(ds)
    decreases e
  {
    if e == i then [] else DigitsOf(s, i, e - 1) + [DigitOf(Char(s, e - 1))]
  }

  lemma DigitsOfNext(s: bytes, i: nat, e: nat, a: Acc)
    requires i <= e
    ensures AddAll(a, DigitsOf(s, i, e + 1)) == AddDigit(AddAll(a, DigitsOf(s, i, e)), DigitOf(Char(s, e)))
  {
    var ds := DigitsOf(s, i, e + 1);
    assert ds[..|ds| - 1] == DigitsOf(s, i, e) && ds[|ds| - 1] == DigitOf(Char(s, e));
    hide AddDigit, DigitOf, Char;
  }

  /** One run of digits: the loop that reads up to the first character that is none. Each digit lowers
      the exponent by weight (1 in the fraction), each dropped digit raises it by one. */
  method ReadDigits(s: bytes, start: nat, weight: nat, a0: Acc, rdExp0: int, endptr0: nat)
      returns (p: nat, c: byte, a: Acc, rdExp: int, endptr: nat)
    ensures p == DigitsEnd(s, start) + 1 && c == Char(s, p - 1) && !IsDigit(c)
    ensures a == AddAll(a0, DigitsOf(s, start, p - 1))
    ensures rdExp == rdExp0 - weight * (p - 1 - start) + a.dropped - a0.dropped
    ensures endptr == if p - 1 == start then endptr0 else p - 1
  {
    hide DigitsOf, AddAll;
    p, a, rdExp, endptr := start, a0, rdExp0, endptr0;
    NoDigits(s, start, a0);
    while true
      invariant start <= p <= DigitsEnd(s, start) && DigitsEnd(s, p) == DigitsEnd(s, start)
      invariant a == AddAll(a0, DigitsOf(s, start, p))
      invariant rdExp == rdExp0 - weight * (p - start) + a.dropped - a0.dropped
      invariant endptr == if p == start then endptr0 else p
      decreases |s| - p
    {
      c := Char(s, p);
      p := p + 1;
      if !IsDigit(c) {
        break;
      }
      DigitsOfNext(s, start, p - 1, a0);
      Weigh(weight, p - 1 - start);
      var dig: nat := c - 48;
      endptr := p;
      rdExp := rdExp - weight;
      if a.value / B32 < MAX_VAL {
        a := a.(value := (a.value * 10 + dig) % B64);
      } else {
        a := a.(dropped := a.dropped + 1, lost := a.lost || dig != 0);
        rdExp := rdExp + 1;
      }
    }
  }

  lemma NoDigits(s: bytes, i: nat, a: Acc)
    ensures AddAll(a, DigitsOf(s, i, i)) == a
  {
  }

  lemma Weigh(w: nat, n: nat)
    ensures w * (n + 1) == w * n + w
  {
  }
}
