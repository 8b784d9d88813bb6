/** Decimal integers and the Range header of source/corehttp/core_http_client.cpp (section 2.1 of RFC 7233). */
module RangeHeader {
  import opened Bytes
  import opened RequestHeaders

  const INT32_MAX: int := 0x7FFF_FFFF
  const INT32_MIN: int := -0x8000_0000
  const DASH: byte := 45

  // ---- decimal integers ----

  function Digit(d: nat): byte
    requires d < 10
  {
    48 + d
  }

  /** The canonical decimal digits of n. */
  function Digits(n: nat): (t: bytes)
    ensures t != []
  {
    (if n < 10 then [] else Digits(n / 10)) + [Digit(n % 10)]
  }

  /** Its digits from the last to the first. */
  function Backwards(n: nat): (t: bytes)
    ensures t != []
  {
    [Digit(n % 10)] + (if n < 10 then [] else Backwards(n / 10))
  }

  function Reversed(t: bytes): (r: bytes)
    ensures |r| == |t|
  {
    if t == [] then [] else Reversed(t[1..]) + [t[0]]
  }

  lemma {:induction false} BackwardsReversed(n: nat)
    ensures Reversed(Backwards(n)) == Digits(n)
  {
    var t := Backwards(n);
    if n < 10 {
      assert t[1..] == [];
      assert Reversed([]) == [];
    } else {
      assert t[1..] == Backwards(n / 10);
      BackwardsReversed(n / 10);
    }
  }

  lemma {:induction false} ReversedAt(t: bytes, k: nat)
    requires k < |t|
    ensures Reversed(t)[k] == t[|t| - 1 - k]
    decreases |t|
  {
    if k < |t| - 1 {
      ReversedAt(t[1..], k);
    }
  }

  function Text(n: int): bytes {
    if n < 0 then [DASH] + Digits(-n) else Digits(n)
  }

  predicate AllDecimal(t: bytes) {
    forall k | 0 <= k < |t| :: 48 <= t[k] <= 57
  }

  predicate AreDecimal(t: bytes) {
    t != [] && AllDecimal(t)
  }

  /** The number written by decimal digits. */
  function Number(t: bytes): nat
    requires AllDecimal(t)
  {
    if t == [] then 0 else Number(t[..|t| - 1]) * 10 + (t[|t| - 1] - 48)
  }

  lemma NumberAppend(t: bytes, d: nat)
    requires AllDecimal(t) && d < 10
    ensures AllDecimal(t + [Digit(d)]) && Number(t + [Digit(d)]) == Number(t) * 10 + d
  {
    assert (t + [Digit(d)])[..|t|] == t;
  }

  lemma NoNumber()
    ensures AllDecimal([]) && Number([]) == 0
  {
  }

  lemma DigitsStep(n: nat)
    ensures Digits(n) == (if n < 10 then [] else Digits(n / 10)) + [Digit(n % 10)]
  {
  }

  /** The digits are decimal, write the number, and have no leading zero. */
  lemma {:induction false} DigitsCanonical(n: nat)
    ensures AllDecimal(Digits(n)) && Number(Digits(n)) == n
    ensures n > 0 ==> Digits(n)[0] != 48
    ensures n == 0 ==> Digits(n) == [48]
  {
    hide Digits, Number, AllDecimal;
    DigitsStep(n);
    if n >= 10 {
      DigitsCanonical(n / 10);
      NumberAppend(Digits(n / 10), n % 10);
    } else {
      NoNumber();
      NumberAppend([], n);
    }
  }

  /** None of the characters that a header must not hold is a digit. */
  lemma NoMarks(t: bytes)
    requires AllDecimal(t)
    ensures CR !in t && LF !in t && COLON !in t && DASH !in t
  {
  }

  function Power10(k: nat): nat { if k == 0 then 1 else 10 * Power10(k - 1) }

  lemma {:induction false} DigitsLength(n: nat, k: nat)
    requires k > 0
    ensures |Digits(n)| <= k <==> n < Power10(k)
    decreases k
  {
    PowerPositive(k - 1);
    if n >= 10 && k > 1 {
      DigitsLength(n / 10, k - 1);
    }
  }

  lemma {:induction false} PowerPositive(k: nat)
    ensures Power10(k) >= 1
  {
    if k > 0 { PowerPositive(k - 1); }
  }

  /** The text of a 32-bit number fits eleven bytes, and the ten that convertInt32ToAscii asks for exactly
      if the number is above -1000000000. */
  lemma TextLength(n: int)
    requires INT32_MIN < n <= INT32_MAX
    ensures |Text(n)| <= (if n < 0 then 11 else 10)
    ensures |Text(n)| <= 10 <==> n > -1000000000
  {
    assert Power10(5) == 100000;
    assert Power10(9) == 1000000000 && Power10(10) == 10000000000;
    DigitsLength(if n < 0 then -n else n, 9);
    DigitsLength(if n < 0 then -n else n, 10);
  }

  lemma BackwardsLength(n: nat)
    ensures |Backwards(n)| == |Digits(n)|
  {
    BackwardsReversed(n);
  }

  lemma BackwardsStep(n: nat)
    ensures Backwards(n) == [Digit(n % 10)] + (if n / 10 == 0 then [] else Backwards(n / 10))
  {
  }

  /** The digits of v from lo on, last digit first. */
  method WriteBackwards(a: array<byte>, lo: nat, value: nat) returns (n: nat)
    requires lo + |Digits(value)| <= a.Length
    modifies a
    ensures n == |Digits(value)| && a[..lo] == old(a[..lo])
    ensures a[lo..lo + n] == Backwards(value) && a[lo + n..] == old(a[lo + n..])
  {
    hide Backwards, Digits;
    BackwardsLength(value);
    ghost var end := lo + |Digits(value)|;
    var v := value;
    n := 0;
    assert a[lo..lo] + Backwards(v) == Backwards(value);
    while true
      invariant lo + n < end && a[..lo] == old(a[..lo]) && a[end..] == old(a[end..])
      invariant a[lo..lo + n] + Backwards(v) == Backwards(value)
      decreases v
    {
      BackwardsStep(v);
      ghost var done := a[lo..lo + n];
      a[lo + n] := Digit(v % 10);
      n := n + 1;
      assert a[lo..lo + n] == done + [Digit(v % 10)];
      v := v / 10;
      if v == 0 {
        assert a[lo..lo + n] == Backwards(value);
        break;
      }
    }
  }

  /** The outer i bytes on each side of b[lo..hi] have been exchanged in r. */
  predicate HalfReversed(b: bytes, r: bytes, lo: nat, hi: nat, i: nat) {
    && lo + i <= hi - i && hi <= |b| == |r|
    && (forall j {:trigger r[j]} | 0 <= j < |r| :: r[j] == if lo <= j < lo + i
        || hi - i <= j < hi then b[lo + hi - 1 - j] else b[j])
  }

  lemma SwapStep(b: bytes, r: bytes, lo: nat, hi: nat, i: nat)
    requires HalfReversed(b, r, lo, hi, i) && i < (hi - lo) / 2
    ensures HalfReversed(b, r[lo + i := r[hi - 1 - i]][hi - 1 - i := r[lo + i]], lo, hi, i + 1)
  {
    var t := r[lo + i := r[hi - 1 - i]][hi - 1 - i := r[lo + i]];
    forall j | 0 <= j < |t|
      ensures t[j] == if lo <= j < lo + i + 1 || hi - (i + 1) <= j < hi then b[lo + hi - 1 - j] else b[j]
    {
      assert r[j] == if lo <= j < lo + i || hi - i <= j < hi then b[lo + hi - 1 - j] else b[j];
    }
  }

  lemma NotReversed(b: bytes, lo: nat, hi: nat)
    requires lo <= hi <= |b|
    ensures HalfReversed(b, b, lo, hi, 0)
  {
  }

  lemma ReversedIs(b: bytes, r: bytes, lo: nat, hi: nat)
    requires lo <= hi && HalfReversed(b, r, lo, hi, (hi - lo) / 2)
    ensures r[lo..hi] == Reversed(b[lo..hi]) && r[..lo] == b[..lo] && r[hi..] == b[hi..]
  {
    forall k | 0 <= k < hi - lo ensures r[lo..hi][k] == Reversed(b[lo..hi])[k] {
      ReversedAt(b[lo..hi], k);
    }
    hide Reversed;
  }

  /** Reverses a[lo..lo + n] in place. */
  method ReverseRun(a: array<byte>, lo: nat, n: nat)
    requires lo + n <= a.Length
    modifies a
    ensures a[..lo] == old(a[..lo]) && a[lo + n..] == old(a[lo + n..])
    ensures a[lo..lo + n] == Reversed(old(a[lo..lo + n]))
  {
    hide Reversed, HalfReversed;
    ghost var b, hi := a[..], lo + n;
    NotReversed(b, lo, hi);
    var i := 0;
    while i < n / 2
      invariant i <= n / 2 && HalfReversed(b, a[..], lo, hi, i)
    {
      ghost var r := a[..];
      SwapStep(b, r, lo, hi, i);
      var temp := a[lo + i];
      a[lo + i] := a[lo + n - i - 1];
      a[lo + n - i - 1] := temp;
      assert a[..] == r[lo + i := r[hi - 1 - i]][hi - 1 - i := r[lo + i]];
      i := i + 1;
    }
    ReversedIs(b, a[..], lo, hi);
    SliceViews(a, b, lo, hi);
  }

  lemma SliceViews(a: array<byte>, b: bytes, lo: nat, hi: nat)
    requires lo <= hi <= a.Length == |b|
    ensures a[..][..lo] == a[..lo] && a[..][hi..] == a[hi..] && a[..][lo..hi] == a[lo..hi]
  {
  }

  /** convertInt32ToAscii: the canonical decimal text, for every number but the smallest. */
  method ConvertInt32ToAscii(value: int, a: array<byte>, at: nat) returns (n: nat)
    requires INT32_MIN < value <= INT32_MAX && at + |Text(value)| <= a.Length
    modifies a
    ensures n == |Text(value)| && a[..at] == old(a[..at])
    ensures a[at..at + n] == Text(value)
  {
    hide Digits, Backwards, Reversed;
    var absoluteValue: int, isNegative := value, 0;
    if value < 0 {
      isNegative := 1;
      a[at] := DASH;
      absoluteValue := value * -1;
    }
    BackwardsReversed(absoluteValue);
    var lo := at + isNegative;
    ghost var head := a[..lo];
    assert head == old(a[..at]) + (if value < 0 then [DASH] else []);
    var numOfDigits := WriteBackwards(a, lo, absoluteValue);
    ReverseRun(a, lo, numOfDigits);
    n := isNegative + numOfDigits;
    TextPlaced(a[..], at, lo, n, head, absoluteValue, value);
  }

  lemma TextPlaced(b: bytes, at: nat, lo: nat, n: nat, head: bytes, v: nat, value: int)
    requires at <= lo && at + n <= |b| && lo <= at + n && b[..lo] == head && b[lo..at + n] == Digits(v)
    requires if value < 0 then v == -value && lo == at + 1 && head[at] == DASH else v == value && lo == at
    ensures b[at..at + n] == Text(value) && b[..at] == head[..at]
  {
    hide Digits;
    assert b[at..at + n] == b[..lo][at..] + b[lo..at + n];
  }

  // ---- ranges ----

  const END_OF_FILE: int := -1
  const PREFIX: bytes := [98, 121, 116, 101, 115, 61]
  const RANGE_FIELD: bytes := [82, 97, 110, 103, 101]
  const MAX_VALUE_LEN: nat := 27

  datatype Range = Span(first: nat, last: nat) | From(first: nat) | Last(n: nat)

  /** The pairs that HTTPClient_AddRangeHeader accepts, among 32-bit numbers. */
  predicate Accepted(start: int, end: int) {
    && INT32_MIN < start <= INT32_MAX && END_OF_FILE <= end <= INT32_MAX
    && (start < 0 ==> end == END_OF_FILE) && (end != END_OF_FILE ==> start <= end)
  }

  /** The range that an accepted pair means. */
  function Meant(start: int, end: int): Range
    requires Accepted(start, end)
  {
    if start < 0 then Last(-start) else if end == END_OF_FILE then From(start) else Span(start, end)
  }

  function RangeText(start: int, end: int): bytes {
    PREFIX + Text(start) + (if end != END_OF_FILE then [DASH] + Text(end) else if start >= 0 then [DASH] else [])
  }

  function DashAt(t: bytes): (n: nat)
    ensures n <= |t|
  {
    if t == [] || t[0] == DASH then 0 else 1 + DashAt(t[1..])
  }

  /** Reading a byte range as section 2.1 of RFC 7233 writes it. */
  function ReadRange(t: bytes): Option<Range> {
    if |t| <= 6 || t[..6] != PREFIX then None
    else
      var s := t[6..];
      var d := DashAt(s);
      if d == |s| then None
      else
        var first, last := s[..d], s[d + 1..];
        if first == [] then (if AreDecimal(last) then Some(Last(Number(last))) else None)
        else if !AreDecimal(first) then None
        else if last == [] then Some(From(Number(first)))
        else if AreDecimal(last) then Some(Span(Number(first), Number(last))) else None
  }

  lemma {:induction false} DashAfter(t: bytes, rest: bytes)
    requires DASH !in t
    ensures DashAt(t + [DASH] + rest) == |t|
    decreases |t|
  {
    var b := t + [DASH] + rest;
    if t != [] {
      assert b[0] == t[0] && b[1..] == t[1..] + [DASH] + rest;
      DashAfter(t[1..], rest);
    }
  }

  /** The parts of a range, before and after its dash. */
  function ReadParts(first: bytes, last: bytes): Option<Range> {
    if first == [] then (if AreDecimal(last) then Some(Last(Number(last))) else None)
    else if !AreDecimal(first) then None
    else if last == [] then Some(From(Number(first)))
    else if AreDecimal(last) then Some(Span(Number(first), Number(last))) else None
  }

  lemma PartsRead(first: bytes, last: bytes)
    requires DASH !in first
    ensures ReadRange(PREFIX + (first + [DASH] + last)) == ReadParts(first, last)
  {
    hide Number, DashAt, AreDecimal;
    var s := first + [DASH] + last;
    var t := PREFIX + s;
    assert t[..6] == PREFIX && t[6..] == s;
    DashAfter(first, last);
    assert s[..|first|] == first && s[|first| + 1..] == last;
  }

  lemma PlainDigits(n: nat)
    ensures DASH !in Digits(n) && AreDecimal(Digits(n)) && Number(Digits(n)) == n
  {
    DigitsCanonical(n);
    NoMarks(Digits(n));
    hide Digits, Number, AllDecimal;
  }

  /** The printed text reads back as the range that was meant. */
  lemma RangeReadBack(start: int, end: int)
    requires Accepted(start, end)
    ensures ReadRange(RangeText(start, end)) == Some(Meant(start, end))
    ensures |RangeText(start, end)| <= MAX_VALUE_LEN
  {
    hide Digits, Number, DashAt, AreDecimal, ReadRange;
    TextLength(start);
    if start < 0 {
      PlainDigits(-start);
      PartsRead([], Digits(-start));
      assert RangeText(start, end) == PREFIX + ([] + [DASH] + Digits(-start));
    } else {
      var last := if end == END_OF_FILE then [] else Digits(end);
      PlainDigits(start);
      PartsRead(Digits(start), last);
      assert RangeText(start, end) == PREFIX + (Digits(start) + [DASH] + last);
      if end != END_OF_FILE {
        PlainDigits(end);
        TextLength(end);
      }
    }
  }

  lemma Placed(b: bytes, at: nat, n: nat, head: bytes, t: bytes)
    requires at + n <= |b| && b[..at] == head && b[at..at + n] == t
    ensures b[..at + n] == head + t
  {
    assert b[..at + n] == b[..at] + b[at..at + n];
  }

  /** The prefix of every range and a number are written at the start of the buffer. */
  method PrefixAndNumber(a: array<byte>, value: int) returns (len: nat)
    requires INT32_MIN < value <= INT32_MAX && |PREFIX| + |Text(value)| <= a.Length
    modifies a
    ensures len == |PREFIX| + |Text(value)| && a[..len] == PREFIX + Text(value)
  {
    hide *;
    ghost var before := a[..];
    Copy(a, 0, PREFIX);
    OverwrittenPrefix(before, PREFIX);
    assert a[..][..|PREFIX|] == a[..|PREFIX|];
    var n := ConvertInt32ToAscii(value, a, |PREFIX|);
    Placed(a[..], |PREFIX|, n, PREFIX, Text(value));
    len := |PREFIX| + n;
  }

  /** A dash and a number are written behind what is in the buffer. */
  method DashAndNumber(a: array<byte>, at: nat, value: int) returns (n: nat)
    requires INT32_MIN < value <= INT32_MAX && at + 1 + |Text(value)| <= a.Length
    modifies a
    ensures n == 1 + |Text(value)| && a[..at + n] == old(a[..at]) + [DASH] + Text(value)
  {
    hide *;
    ghost var before := a[..at];
    a[at] := DASH;
    assert a[..at + 1] == before + [DASH];
    n := ConvertInt32ToAscii(value, a, at + 1);
    Placed(a[..], at + 1, n, before + [DASH], Text(value));
    n := n + 1;
  }

  /** addRangeHeader: the value is written into 27 bytes, which always suffice. */
  method RangeValue(start: int, end: int) returns (value: bytes)
    requires Accepted(start, end)
    ensures value == RangeText(start, end)
  {
    RangeTextIs(start, end);
    RangeReadBack(start, end);
    hide *;
    var a := new byte[MAX_VALUE_LEN](_ => 0);
    var len := PrefixAndNumber(a, start);
    if end != END_OF_FILE {
      var n := DashAndNumber(a, len, end);
      len := len + n;
    } else if start >= 0 {
      a[len] := DASH;
      len := len + 1;
    }
    value := a[..len];
  }

  lemma RangeTextIs(start: int, end: int)
    requires Accepted(start, end)
    ensures |PREFIX| == 6 && INT32_MIN < start <= INT32_MAX && (end != END_OF_FILE ==> INT32_MIN < end <= INT32_MAX)
    ensures end != END_OF_FILE ==> RangeText(start, end) == PREFIX + Text(start) + [DASH] + Text(end)
    ensures end == END_OF_FILE && start >= 0 ==> RangeText(start, end) == PREFIX + Text(start) + [DASH]
    ensures end == END_OF_FILE && start < 0 ==> RangeText(start, end) == PREFIX + Text(start)
  {
    hide Text;
    assert PREFIX + Text(start) + ([DASH] + Text(end)) == PREFIX + Text(start) + [DASH] + Text(end);
  }

  /** HTTPClient_AddRangeHeader: a Range header that reads back as the range that was meant, or, for a
      pair that is not accepted, nothing. */
  method AddRangeHeader(headers: HTTPRequestHeaders, start: int, end: int) returns (status: Status)
    requires INT32_MIN <= start <= INT32_MAX && INT32_MIN <= end <= INT32_MAX
    modifies headers`headersLen, headers.buffer
    ensures status == HTTPInvalidParameter <==> !Accepted(start, end) || old(headers.headersLen) > headers.buffer.Length
    ensures status != HTTPSuccess ==>
              headers.headersLen == old(headers.headersLen) && headers.buffer[..] == old(headers.buffer[..])
    ensures status == HTTPSuccess ==>
              && old(headers.Valid()) && headers.Valid()
              && headers.Contents() == WithHeader(old(headers.Contents()), Header(RANGE_FIELD, RangeText(start, end)))
    ensures status != HTTPSuccess && status != HTTPInvalidParameter ==> status == HTTPInsufficientMemory
  {
    hide WithHeader, RangeText, Backtrack, ReadRange;
    if headers.headersLen > headers.buffer.Length || end < END_OF_FILE || (start < 0 && end != END_OF_FILE)
       || (end != END_OF_FILE && start > end) || start == INT32_MIN {
      return HTTPInvalidParameter;
    }
    var value := RangeValue(start, end);
    RangeIsHeader(start, end);
    status := headers.AddHeader(Header(RANGE_FIELD, value));
  }

  lemma RangeIsHeader(start: int, end: int)
    requires Accepted(start, end)
    ensures IsHeader(Header(RANGE_FIELD, RangeText(start, end)))
  {
    PlainText(RANGE_FIELD, true);
    NumberText(start);
    NumberText(end);
    var t := RangeText(start, end);
    assert CR !in PREFIX && LF !in PREFIX && COLON !in PREFIX;
    assert CR !in t && LF !in t && COLON !in t;
    PlainText(t, false);
    hide Text, IsText, RangeText;
  }

  lemma NumberText(n: int)
    ensures CR !in Text(n) && LF !in Text(n) && COLON !in Text(n)
  {
    PlainDigits(if n < 0 then -n else n);
    NoMarks(Digits(if n < 0 then -n else n));
    hide Digits, Number, AllDecimal;
  }
}
