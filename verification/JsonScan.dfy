/** The scanners of source/core_json.cpp: each index-advancing loop is a method
    proved equal to a function on the buffer, which the grammar lemmas use. */
module JsonScan {
  import opened Bytes

  const QUOTE: byte := 34
  const BACKSLASH: byte := 92
  const COMMA: byte := 44
  const COLON: byte := 58
  const LBRACE: byte := 123
  const RBRACE: byte := 125
  const LSQUARE: byte := 91
  const RSQUARE: byte := 93
  const MINUS: byte := 45
  const PLUS: byte := 43
  const DOT: byte := 46
  const ZERO: byte := 48
  const LOWER_U: byte := 117
  const LOWER_E: byte := 101
  const UPPER_E: byte := 69

  const TRUE_TEXT: bytes := [116, 114, 117, 101]
  const FALSE_TEXT: bytes := [102, 97, 108, 115, 101]
  const NULL_TEXT: bytes := [110, 117, 108, 108]

  const MAX_DEPTH: nat := 32
  const MAX_INDEX_VALUE := 0x7FFFFFF7
  const MAX_FACTOR := MAX_INDEX_VALUE / 10

  predicate IsSpace(c: byte) { c == 32 || c == 9 || c == 10 || c == 13 }
  predicate IsAscii(c: byte) { c < 128 }
  predicate IsControl(c: byte) { c < 32 }
  predicate IsDigit(c: byte) { 48 <= c <= 57 }
  predicate IsOpen(c: byte) { c == LBRACE || c == LSQUARE }
  predicate IsClose(c: byte) { c == RBRACE || c == RSQUARE }
  predicate Matches(open: byte, close: byte) {
    (open == LBRACE && close == RBRACE) || (open == LSQUARE && close == RSQUARE)
  }

  datatype Status =
    | JSONSuccess | JSONPartial | JSONIllegalDocument | JSONMaxDepthExceeded | JSONNotFound | JSONBadParameter

  // ---- white space ----

  function SpaceEnd(b: bytes, i: nat): (k: nat)
    ensures i <= k && (i <= |b| ==> k <= |b|)
    ensures k < |b| ==> !IsSpace(b[k])
    decreases |b| - i
  {
    if i < |b| && IsSpace(b[i]) then SpaceEnd(b, i + 1) else i
  }

  method SkipSpace(buf: bytes, start: nat) returns (i: nat)
    ensures i == SpaceEnd(buf, start)
  {
    i := start;
    while i < |buf| && IsSpace(buf[i])
      invariant start <= i
      invariant SpaceEnd(buf, i) == SpaceEnd(buf, start)
    {
      i := i + 1;
    }
  }

  // ---- UTF-8 ----

  /** Leading one bits of a byte, shifting them out one at a time. */
  function HighBits(n: byte): nat
    decreases n
  {
    if n >= 128 then 1 + HighBits((n % 128) * 2) else 0
  }

  method CountHighBits(c: byte) returns (i: nat)
    ensures i == HighBits(c)
  {
    var n := c;
    i := 0;
    while n >= 128
      invariant i + HighBits(n) == HighBits(c)
      decreases n
    {
      i := i + 1;
      n := (n % 128) * 2;
    }
  }

  predicate ShortestUtf8(length: nat, value: nat) {
    var min := if length == 2 then 0x80 else if length == 3 then 0x800 else 0x10000;
    var max := if length == 2 then 0x7FF else if length == 3 then 0xFFFF else 0x10FFFF;
    min <= value <= max && (value < 0xD800 || value > 0xDFFF)
  }

  function Pow2(n: nat): (p: nat)
    ensures p > 0
  {
    if n == 0 then 1 else 2 * Pow2(n - 1)
  }

  predicate IsTrail(c: byte) { c / 64 == 2 }

  /** Fold n trailing bytes into value; None when one is missing or malformed. */
  function Trailing(b: bytes, i: nat, n: nat, value: nat): (r: Option<nat>)
    ensures r.Some? ==> i + n <= |b|
    decreases n
  {
    if n == 0 then (if i <= |b| then Some(value) else None)
    else if i < |b| && IsTrail(b[i]) then Trailing(b, i + 1, n - 1, value * 64 + b[i] % 64)
    else None
  }

  /** The index just after the multi-byte sequence that starts at i, if it is well formed. */
  function MultiByteEnd(b: bytes, i: nat): (r: Option<nat>)
    ensures r.Some? ==> i < r.value <= |b|
  {
    if i < |b| && 0xC1 < b[i] < 0xF5 then
      var n := HighBits(b[i]);
      if 2 <= n <= 4 then
        match Trailing(b, i + 1, n - 1, b[i] % Pow2(7 - n))
        case None => None
        case Some(v) => if ShortestUtf8(n, v) then Some(i + n) else None
      else None
    else None
  }

  lemma HighStep(c: byte)
    ensures c < 128 ==> HighBits(c) == 0
    ensures c >= 128 ==> 0 <= (c % 128) * 2 < 256 && HighBits(c) == 1 + HighBits((c % 128) * 2)
  {
  }

  lemma SmallPowers()
    ensures Pow2(5) == 32 && Pow2(4) == 16 && Pow2(3) == 8
  {
  }

  lemma LeadByteBits(c: byte)
    requires 0xC1 < c < 0xF5
    ensures HighBits(c) == (if c < 0xE0 then 2 else if c < 0xF0 then 3 else 4)
    ensures Pow2(5) == 32 && Pow2(4) == 16 && Pow2(3) == 8
  {
    hide HighBits, Pow2;
    SmallPowers();
    var n1: byte := (c % 128) * 2;
    var n2: byte := (n1 % 128) * 2;
    HighStep(c);
    HighStep(n1);
    HighStep(n2);
    if c >= 0xE0 {
      var n3: byte := (n2 % 128) * 2;
      HighStep(n3);
      if c >= 0xF0 {
        HighStep((n3 % 128) * 2);
      }
    }
  }

  method SkipUtf8MultiByte(buf: bytes, start: nat) returns (ret: bool, end: nat)
    requires start < |buf| && !IsAscii(buf[start])
    ensures ret <==> MultiByteEnd(buf, start).Some?
    ensures end == (if ret then MultiByteEnd(buf, start).value else start)
  {
    ret, end := false, start;
    var i, c := start, buf[start];
    if c > 0xC1 && c < 0xF5 {
      LeadByteBits(c);
      var bitCount := CountHighBits(c);
      var value: nat := c % Pow2(7 - bitCount);
      var j := bitCount - 1;
      ghost var result := Trailing(buf, start + 1, bitCount - 1, value);
      while j > 0
        invariant 0 <= j <= bitCount - 1 && i == start + (bitCount - 1 - j) && i < |buf|
        invariant Trailing(buf, i + 1, j, value) == result
      {
        i := i + 1;
        if i >= |buf| { break; }
        c := buf[i];
        if c / 64 != 2 { break; }
        value := value * 64 + c % 64;
        j := j - 1;
      }
      if j == 0 && ShortestUtf8(bitCount, value) {
        end := i + 1;
        ret := true;
      }
    }
  }

  function Utf8End(b: bytes, i: nat): (r: Option<nat>)
    ensures r.Some? ==> i < r.value <= |b|
  {
    if i < |b| then (if IsAscii(b[i]) then Some(i + 1) else MultiByteEnd(b, i)) else None
  }

  method SkipUtf8(buf: bytes, start: nat) returns (ret: bool, end: nat)
    ensures ret <==> Utf8End(buf, start).Some?
    ensures end == (if ret then Utf8End(buf, start).value else start)
  {
    ret, end := false, start;
    if start < |buf| {
      if IsAscii(buf[start]) {
        end := start + 1;
        ret := true;
      } else {
        ret, end := SkipUtf8MultiByte(buf, start);
      }
    }
  }

  // ---- escapes ----

  const NOT_A_HEX_CHAR: nat := 16

  function HexToInt(c: byte): (n: nat)
    ensures n <= NOT_A_HEX_CHAR
  {
    if 97 <= c <= 102 then c - 87
    else if 65 <= c <= 70 then c - 55
    else if IsDigit(c) then c - 48
    else NOT_A_HEX_CHAR
  }

  predicate IsHex(c: byte) { HexToInt(c) != NOT_A_HEX_CHAR }

  /** The value of the hexadecimal digits b[i..end], most significant first, after value. */
  function HexFold(b: bytes, i: nat, end: nat, value: nat): (r: Option<nat>)
    requires i <= end <= |b|
    decreases end - i
  {
    if i == end then Some(value)
    else if IsHex(b[i]) then HexFold(b, i + 1, end, value * 16 + HexToInt(b[i]))
    else None
  }

  /** The value of a single \u escape at i: four hexadecimal digits, not all zero, with
      at least one byte after them. */
  function HexEscape(b: bytes, i: nat): (r: Option<nat>) {
    if i + 6 < |b| && b[i] == BACKSLASH && b[i + 1] == LOWER_U then
      match HexFold(b, i + 2, i + 6, 0)
      case None => None
      case Some(v) => if v > 0 then Some(v) else None
    else None
  }

  method SkipOneHexEscape(buf: bytes, start: nat) returns (ret: bool, end: nat, outValue: nat)
    ensures ret <==> HexEscape(buf, start).Some?
    ensures end == (if ret then start + 6 else start)
    ensures ret ==> outValue == HexEscape(buf, start).value
  {
    ret, end, outValue := false, start, 0;
    var i, stop, value := start, start + 6, 0;
    if stop < |buf| && buf[i] == BACKSLASH && buf[i + 1] == LOWER_U {
      i := i + 2;
      while i < stop
        invariant start + 2 <= i <= stop
        invariant HexFold(buf, i, stop, value) == HexFold(buf, start + 2, stop, 0)
      {
        var n := HexToInt(buf[i]);
        if n == NOT_A_HEX_CHAR { break; }
        value := value * 16 + n;
        i := i + 1;
      }
    }
    if i == stop && value > 0 {
      ret, end, outValue := true, i, value;
    }
  }

  predicate IsHighSurrogate(x: nat) { 0xD800 <= x <= 0xDBFF }
  predicate IsLowSurrogate(x: nat) { 0xDC00 <= x <= 0xDFFF }

  function HexEscapeEnd(b: bytes, i: nat): (r: Option<nat>)
    ensures r.Some? ==> i < r.value <= |b|
  {
    match HexEscape(b, i)
    case None => None
    case Some(v) =>
      if IsHighSurrogate(v) then
        match HexEscape(b, i + 6)
        case None => None
        case Some(w) => if IsLowSurrogate(w) then Some(i + 12) else None
      else if IsLowSurrogate(v) then None
      else Some(i + 6)
  }

  method SkipHexEscape(buf: bytes, start: nat) returns (ret: bool, end: nat)
    ensures ret <==> HexEscapeEnd(buf, start).Some?
    ensures end == (if ret then HexEscapeEnd(buf, start).value else start)
  {
    ret, end := false, start;
    var ok, i, value := SkipOneHexEscape(buf, start);
    if ok {
      if IsHighSurrogate(value) {
        ok, i, value := SkipOneHexEscape(buf, i);
        if ok && IsLowSurrogate(value) {
          ret := true;
        }
      } else if !IsLowSurrogate(value) {
        ret := true;
      }
    }
    if ret {
      end := i;
    }
  }

  /** The characters that may follow a backslash directly: " \ / b f n r t */
  predicate IsShortEscape(c: byte) {
    c == QUOTE || c == BACKSLASH || c == 47 || c == 98 || c == 102 || c == 110 || c == 114 || c == 116
  }

  function EscapeEnd(b: bytes, i: nat): (r: Option<nat>)
    ensures r.Some? ==> i < r.value <= |b|
  {
    if i + 1 < |b| && b[i] == BACKSLASH then
      var c := b[i + 1];
      if c == 0 then None
      else if c == LOWER_U then HexEscapeEnd(b, i)
      else if IsShortEscape(c) || IsControl(c) then Some(i + 2)
      else None
    else None
  }

  method SkipEscape(buf: bytes, start: nat) returns (ret: bool, end: nat)
    requires |buf| > 0
    ensures ret <==> EscapeEnd(buf, start).Some?
    ensures end == (if ret then EscapeEnd(buf, start).value else start)
  {
    ret, end := false, start;
    var i := start;
    if i < |buf| - 1 && buf[i] == BACKSLASH {
      var c := buf[i + 1];
      if c == 0 {
      } else if c == LOWER_U {
        ret, i := SkipHexEscape(buf, i);
      } else if IsShortEscape(c) {
        i := i + 2;
        ret := true;
      } else if IsControl(c) {
        i := i + 2;
        ret := true;
      }
    }
    if ret {
      end := i;
    }
  }

  // ---- strings ----

  /** The index after the closing quote of a string whose next byte is b[i]. */
  function StringBodyEnd(b: bytes, i: nat): (r: Option<nat>)
    ensures r.Some? ==> i < r.value <= |b|
    decreases |b| - i
  {
    if i >= |b| then None
    else if b[i] == QUOTE then Some(i + 1)
    else if b[i] == BACKSLASH then
      match EscapeEnd(b, i)
      case None => None
      case Some(j) => StringBodyEnd(b, j)
    else if IsControl(b[i]) then None
    else
      match Utf8End(b, i)
      case None => None
      case Some(j) => StringBodyEnd(b, j)
  }

  function StringEnd(b: bytes, i: nat): (r: Option<nat>)
    ensures r.Some? ==> i + 1 < r.value <= |b|
  {
    if i < |b| && b[i] == QUOTE then StringBodyEnd(b, i + 1) else None
  }

  method SkipString(buf: bytes, start: nat) returns (ret: bool, end: nat)
    ensures ret <==> StringEnd(buf, start).Some?
    ensures end == (if ret then StringEnd(buf, start).value else start)
  {
    ret, end := false, start;
    var i := start;
    if i < |buf| && buf[i] == QUOTE {
      i := i + 1;
      while i < |buf|
        invariant start < i <= |buf|
        invariant StringBodyEnd(buf, i) == StringEnd(buf, start)
        decreases |buf| - i
      {
        if buf[i] == QUOTE {
          ret := true;
          i := i + 1;
          break;
        }
        var ok;
        if buf[i] == BACKSLASH {
          ok, i := SkipEscape(buf, i);
          if !ok { break; }
        } else if IsControl(buf[i]) {
          break;
        } else {
          ok, i := SkipUtf8(buf, i);
          if !ok { break; }
        }
      }
    }
    if ret {
      end := i;
    }
  }

  // ---- literals ----

  method StrnEq(a: bytes, aStart: nat, b: bytes, n: nat) returns (eq: bool)
    requires aStart + n <= |a| && n <= |b|
    ensures eq <==> a[aStart..aStart + n] == b[..n]
  {
    var i := 0;
    while i < n
      invariant 0 <= i <= n
      invariant forall j :: 0 <= j < i ==> a[aStart + j] == b[j]
    {
      if a[aStart + i] != b[i] { break; }
      i := i + 1;
    }
    if i < n {
      assert a[aStart..aStart + n][i] != b[..n][i];
    }
    eq := i == n;
  }

  method SkipLiteral(buf: bytes, start: nat, literal: bytes) returns (ret: bool, end: nat)
    requires |literal| > 0
    ensures ret <==> At(buf, start, literal)
    ensures end == (if ret then start + |literal| else start)
  {
    ret, end := false, start;
    if start < |buf| && |literal| <= |buf| - start {
      ret := StrnEq(buf, start, literal, |literal|);
      assert literal[..|literal|] == literal;
    }
    if ret {
      end := end + |literal|;
    }
  }

  function LiteralEnd(b: bytes, i: nat): (r: Option<nat>)
    ensures r.Some? ==> i < r.value <= |b|
  {
    if At(b, i, TRUE_TEXT) then Some(i + 4)
    else if At(b, i, FALSE_TEXT) then Some(i + 5)
    else if At(b, i, NULL_TEXT) then Some(i + 4)
    else None
  }

  method SkipAnyLiteral(buf: bytes, start: nat) returns (ret: bool, end: nat)
    ensures ret <==> LiteralEnd(buf, start).Some?
    ensures end == (if ret then LiteralEnd(buf, start).value else start)
  {
    ret, end := SkipLiteral(buf, start, TRUE_TEXT);
    if !ret {
      ret, end := SkipLiteral(buf, start, FALSE_TEXT);
      if !ret {
        ret, end := SkipLiteral(buf, start, NULL_TEXT);
      }
    }
  }

  // ---- numbers ----

  function DigitsEnd(b: bytes, i: nat): (k: nat)
    ensures i <= k && (i <= |b| ==> k <= |b|)
    ensures k < |b| ==> !IsDigit(b[k])
    decreases |b| - i
  {
    if i < |b| && IsDigit(b[i]) then DigitsEnd(b, i + 1) else i
  }

  /** The clamped decimal value of the digits from i, after value; -1 stands for too large. */
  function DigitsValue(b: bytes, i: nat, value: int): int
    decreases |b| - i
  {
    if i < |b| && IsDigit(b[i]) then
      DigitsValue(b, i + 1,
                  if value <= -1 then value else if value <= MAX_FACTOR then value * 10 + HexToInt(b[i]) else -1)
    else value
  }

  /** Every value the accumulator takes fits a signed 32-bit integer. */
  method SkipDigits(buf: bytes, start: nat) returns (ret: bool, end: nat, outValue: int)
    ensures end == DigitsEnd(buf, start)
    ensures ret <==> end > start
    ensures outValue == DigitsValue(buf, start, 0)
    ensures -1 <= outValue <= MAX_INDEX_VALUE
  {
    ret := false;
    var i, value := start, 0;
    while i < |buf|
      invariant start <= i
      invariant DigitsEnd(buf, i) == DigitsEnd(buf, start)
      invariant DigitsValue(buf, i, value) == DigitsValue(buf, start, 0)
      invariant -1 <= value <= MAX_INDEX_VALUE
    {
      if !IsDigit(buf[i]) { break; }
      if value > -1 {
        var n := HexToInt(buf[i]);
        if value <= MAX_FACTOR {
          value := value * 10 + n;
        } else {
          value := -1;
        }
      }
      i := i + 1;
    }
    end, outValue := i, value;
    if i > start {
      ret := true;
    }
  }

  function DecimalsEnd(b: bytes, i: nat): (k: nat)
    ensures i <= k && (i <= |b| ==> k <= |b|)
  {
    if i < |b| && b[i] == DOT && DigitsEnd(b, i + 1) > i + 1 then DigitsEnd(b, i + 1) else i
  }

  method SkipDecimals(buf: bytes, start: nat) returns (end: nat)
    ensures end == DecimalsEnd(buf, start)
  {
    end := start;
    var i := start;
    if i < |buf| && buf[i] == DOT {
      i := i + 1;
      var ok, j, _ := SkipDigits(buf, i);
      if ok {
        end := j;
      }
    }
  }

  function SignEnd(b: bytes, i: nat): (k: nat)
    ensures i <= k <= i + 1 && (i <= |b| ==> k <= |b|)
  {
    if i < |b| && (b[i] == MINUS || b[i] == PLUS) then i + 1 else i
  }

  function ExponentEnd(b: bytes, i: nat): (k: nat)
    ensures i <= k && (i <= |b| ==> k <= |b|)
  {
    if i < |b| && (b[i] == LOWER_E || b[i] == UPPER_E) then
      var s := SignEnd(b, i + 1);
      if DigitsEnd(b, s) > s then DigitsEnd(b, s) else i
    else i
  }

  method SkipExponent(buf: bytes, start: nat) returns (end: nat)
    ensures end == ExponentEnd(buf, start)
  {
    end := start;
    var i := start;
    if i < |buf| && (buf[i] == LOWER_E || buf[i] == UPPER_E) {
      i := i + 1;
      if i < |buf| && (buf[i] == MINUS || buf[i] == PLUS) {
        i := i + 1;
      }
      var ok, j, _ := SkipDigits(buf, i);
      if ok {
        end := j;
      }
    }
  }

  function IntegerEnd(b: bytes, i: nat): (r: Option<nat>)
    ensures r.Some? ==> i < r.value <= |b|
  {
    if i < |b| then
      if b[i] == ZERO then Some(i + 1)
      else if DigitsEnd(b, i) > i then Some(DigitsEnd(b, i))
      else None
    else None
  }

  function MinusEnd(b: bytes, i: nat): (k: nat)
    ensures i <= k <= i + 1
  {
    if i < |b| && b[i] == MINUS then i + 1 else i
  }

  function NumberEnd(b: bytes, i: nat): (r: Option<nat>)
    ensures r.Some? ==> i < r.value <= |b|
  {
    match IntegerEnd(b, MinusEnd(b, i))
    case None => None
    case Some(j) => Some(ExponentEnd(b, DecimalsEnd(b, j)))
  }

  method SkipNumber(buf: bytes, start: nat) returns (ret: bool, end: nat)
    ensures ret <==> NumberEnd(buf, start).Some?
    ensures end == (if ret then NumberEnd(buf, start).value else start)
  {
    ret, end := false, start;
    var i := start;
    if i < |buf| && buf[i] == MINUS {
      i := i + 1;
    }
    if i < |buf| {
      if buf[i] == ZERO {
        ret := true;
        i := i + 1;
      } else {
        var value;
        ret, i, value := SkipDigits(buf, i);
      }
    }
    if ret {
      i := SkipDecimals(buf, i);
      i := SkipExponent(buf, i);
      end := i;
    }
  }

  // ---- scalars ----

  function ScalarEnd(b: bytes, i: nat): (r: Option<nat>)
    ensures r.Some? ==> i < r.value <= |b|
  {
    if StringEnd(b, i).Some? then StringEnd(b, i)
    else if LiteralEnd(b, i).Some? then LiteralEnd(b, i)
    else NumberEnd(b, i)
  }

  method SkipAnyScalar(buf: bytes, start: nat) returns (ret: bool, end: nat)
    ensures ret <==> ScalarEnd(buf, start).Some?
    ensures end == (if ret then ScalarEnd(buf, start).value else start)
  {
    ret, end := SkipString(buf, start);
    if !ret {
      ret, end := SkipAnyLiteral(buf, start);
      if !ret {
        ret, end := SkipNumber(buf, start);
      }
    }
  }

  /** Where the scan stops after white space and an optional comma, and whether a comma
      that is not the last byte before a close bracket was passed. */
  function CommaEnd(b: bytes, i: nat): (r: (bool, nat))
    ensures i <= r.1 && (i <= |b| ==> r.1 <= |b|)
    ensures r.0 ==> i < r.1 < |b| && !IsClose(b[r.1]) && !IsSpace(b[r.1])
  {
    var s := SpaceEnd(b, i);
    if s < |b| && b[s] == COMMA then
      var k := SpaceEnd(b, s + 1);
      if k < |b| && !IsClose(b[k]) then (true, k) else (false, s)
    else (false, s)
  }

  method SkipSpaceAndComma(buf: bytes, start: nat) returns (ret: bool, end: nat)
    ensures (ret, end) == CommaEnd(buf, start)
  {
    ret := false;
    end := SkipSpace(buf, start);
    var i := end;
    if i < |buf| && buf[i] == COMMA {
      i := i + 1;
      i := SkipSpace(buf, i);
      if i < |buf| && !IsClose(buf[i]) {
        ret := true;
        end := i;
      }
    }
  }

  function ArrayScalarsEnd(b: bytes, i: nat): (k: nat)
    ensures i <= k && (i <= |b| ==> k <= |b|)
    decreases |b| - i
  {
    match ScalarEnd(b, i)
    case None => i
    case Some(j) =>
      var (comma, k) := CommaEnd(b, j);
      if comma then ArrayScalarsEnd(b, k) else k
  }

  method SkipArrayScalars(buf: bytes, start: nat) returns (end: nat)
    ensures end == ArrayScalarsEnd(buf, start)
  {
    var i := start;
    while i < |buf|
      invariant start <= i
      invariant ArrayScalarsEnd(buf, i) == ArrayScalarsEnd(buf, start)
      decreases |buf| - i
    {
      var ok;
      ok, i := SkipAnyScalar(buf, i);
      if !ok { break; }
      ok, i := SkipSpaceAndComma(buf, i);
      if !ok { break; }
    }
    end := i;
  }

  /** Where the value of the member at i starts: after the key, a colon (or the end of
      the buffer) and white space. */
  function MemberValue(b: bytes, i: nat): (r: Option<nat>)
    ensures r.Some? ==> i < r.value
  {
    match StringEnd(b, i)
    case None => None
    case Some(j) =>
      var s := SpaceEnd(b, j);
      if s < |b| && b[s] != COLON then None else Some(SpaceEnd(b, s + 1))
  }

  function ObjectScalarsEnd(b: bytes, i: nat): (k: nat)
    ensures i <= k && (i <= |b| ==> k <= |b|)
    decreases |b| - i
  {
    match MemberValue(b, i)
    case None => i
    case Some(v) =>
      if v < |b| && IsOpen(b[v]) then v
      else
        match ScalarEnd(b, v)
        case None => i
        case Some(u) =>
          var (comma, k) := CommaEnd(b, u);
          if comma then ObjectScalarsEnd(b, k) else k
  }

  method SkipObjectScalars(buf: bytes, start: nat) returns (end: nat)
    ensures end == ObjectScalarsEnd(buf, start)
  {
    hide StringEnd, SpaceEnd, ScalarEnd, CommaEnd;
    end := start;
    var i := start;
    while i < |buf|
      invariant start <= i == end
      invariant ObjectScalarsEnd(buf, i) == ObjectScalarsEnd(buf, start)
      decreases |buf| - i
    {
      var ok;
      ok, i := SkipString(buf, i);
      if !ok { break; }
      i := SkipSpace(buf, i);
      if i < |buf| && buf[i] != COLON { break; }
      i := i + 1;
      i := SkipSpace(buf, i);
      if i < |buf| && IsOpen(buf[i]) {
        end := i;
        break;
      }
      ok, i := SkipAnyScalar(buf, i);
      if !ok { break; }
      var comma;
      comma, i := SkipSpaceAndComma(buf, i);
      end := i;
      if !comma { break; }
    }
  }

  function ScalarsEnd(b: bytes, i: nat, mode: byte): (k: nat)
    ensures i <= k && (i <= |b| ==> k <= |b|)
  {
    var s := SpaceEnd(b, i);
    if mode == LSQUARE then ArrayScalarsEnd(b, s) else ObjectScalarsEnd(b, s)
  }

  method SkipScalars(buf: bytes, start: nat, mode: byte) returns (end: nat)
    requires IsOpen(mode)
    ensures end == ScalarsEnd(buf, start, mode)
  {
    end := SkipSpace(buf, start);
    if mode == LSQUARE {
      end := SkipArrayScalars(buf, end);
    } else {
      end := SkipObjectScalars(buf, end);
    }
  }

  // ---- collections ----

  function Top(stack: bytes): byte
    requires |stack| > 0
  {
    stack[|stack| - 1]
  }

  /** Where the scan resumes at i inside the collection on top of the stack, just after
      a nested collection was closed. */
  function ResumeEnd(b: bytes, i: nat, stack: bytes): (k: nat)
    requires |stack| > 0
    ensures i <= k && (i <= |b| ==> k <= |b|)
  {
    var (comma, k) := CommaEnd(b, i);
    if comma then ScalarsEnd(b, k, Top(stack)) else k
  }

  /** The bracket loop: status and, on success, the index after the outermost close. */
  function Brackets(b: bytes, i: nat, stack: bytes): (r: (Status, nat))
    ensures r.0 in {JSONSuccess, JSONPartial, JSONIllegalDocument, JSONMaxDepthExceeded}
    ensures r.0 == JSONSuccess ==> i < r.1 <= |b|
    decreases |b| - i, 0
  {
    if i >= |b| then (JSONPartial, i)
    else
      var c := b[i];
      if IsOpen(c) then
        if |stack| == MAX_DEPTH then (JSONMaxDepthExceeded, i)
        else Brackets(b, ScalarsEnd(b, i + 1, c), stack + [c])
      else if IsClose(c) && |stack| > 0 && Matches(Top(stack), c) then
        AfterClose(b, i + 1, stack[..|stack| - 1])
      else (JSONIllegalDocument, i)
  }

  /** What follows a matched close bracket, with the collections still open in stack. */
  function AfterClose(b: bytes, i: nat, stack: bytes): (r: (Status, nat))
    requires i <= |b|
    ensures r.0 in {JSONSuccess, JSONPartial, JSONIllegalDocument, JSONMaxDepthExceeded}
    ensures r.0 == JSONSuccess ==> i <= r.1 <= |b|
    decreases |b| - i, 1
  {
    if stack == [] then (JSONSuccess, i) else Brackets(b, ResumeEnd(b, i, stack), stack)
  }

  lemma BracketsOpened(b: bytes, i: nat, stack: bytes)
    requires i < |b| && IsOpen(b[i])
    ensures Brackets(b, i, stack) ==
            if |stack| == MAX_DEPTH then (JSONMaxDepthExceeded, i)
            else Brackets(b, ScalarsEnd(b, i + 1, b[i]), stack + [b[i]])
  {
    hide ScalarsEnd, ResumeEnd;
  }

  lemma BracketsNested(b: bytes, i: nat, stack: bytes, rest: bytes)
    requires i < |b| && IsClose(b[i]) && |stack| > 1 && Matches(Top(stack), b[i]) && rest == stack[..|stack| - 1]
    ensures |rest| > 0 && Brackets(b, i, stack) == Brackets(b, ResumeEnd(b, i + 1, rest), rest)
  {
    hide ScalarsEnd, ResumeEnd;
  }

  lemma BracketsEnded(b: bytes, i: nat, stack: bytes)
    requires i < |b| && !IsOpen(b[i]) && (IsClose(b[i]) && |stack| > 1 ==> !Matches(Top(stack), b[i]))
    ensures Brackets(b, i, stack) ==
            if IsClose(b[i]) && |stack| == 1
            && Matches(Top(stack), b[i]) then (JSONSuccess, i + 1) else (JSONIllegalDocument, i)
  {
    hide ScalarsEnd, ResumeEnd;
    if |stack| == 1 {
      assert stack[..0] == [];
    }
  }

  lemma BracketsOver(b: bytes, i: nat, stack: bytes)
    requires i >= |b|
    ensures Brackets(b, i, stack) == (JSONPartial, i)
  {
  }

  lemma ResumeIs(b: bytes, i: nat, stack: bytes)
    requires |stack| > 0
    ensures ResumeEnd(b, i, stack) == if CommaEnd(b, i).0 then ScalarsEnd(b, CommaEnd(b, i).1, Top(stack))
                                      else CommaEnd(b, i).1
  {
    hide CommaEnd, ScalarsEnd;
  }

  lemma TopIs(stack: bytes)
    requires |stack| > 0
    ensures Top(stack) == stack[|stack| - 1]
  {
  }

  lemma NeverBoth(c: byte)
    ensures IsClose(c) ==> !IsOpen(c)
  {
  }

  /** The open brackets are kept in a fixed array of MAX_DEPTH entries, stack[..depth + 1]. */
  method SkipCollection(buf: bytes, start: nat) returns (ret: Status, end: nat)
    ensures ret == Brackets(buf, start, []).0
    ensures end == (if ret == JSONSuccess then Brackets(buf, start, []).1 else start)
  {
    hide *;
    ret, end := JSONPartial, start;
    ghost var goal := Brackets(buf, start, []);
    var stack := new byte[MAX_DEPTH];
    assert stack[..0] == [];
    var depth, i := -1, start;
    while i < |buf|
      invariant -1 <= depth < MAX_DEPTH
      invariant forall k :: 0 <= k <= depth ==> IsOpen(stack[k])
      invariant ret == JSONPartial && i >= start
      invariant Brackets(buf, i, stack[..depth + 1]) == goal
      decreases |buf| - i
    {
      ghost var open := stack[..depth + 1];
      assert |open| > 0 ==> Top(open) == stack[depth] by { if |open| > 0 { TopIs(open); } }
      var c := buf[i];
      NeverBoth(c);
      i := i + 1;
      if IsOpen(c) {
        BracketsOpened(buf, i - 1, open);
        depth := depth + 1;
        if depth == MAX_DEPTH {
          ret := JSONMaxDepthExceeded;
          break;
        }
        stack[depth] := c;
        assert stack[..depth + 1] == open + [c];
        i := SkipScalars(buf, i, stack[depth]);
      } else if IsClose(c) {
        if depth > 0 && Matches(stack[depth], c) {
          depth := depth - 1;
          ghost var rest := stack[..depth + 1];
          assert open[..|open| - 1] == rest;
          BracketsNested(buf, i - 1, open, rest);
          ResumeIs(buf, i, rest);
          TopIs(rest);
          var comma;
          comma, i := SkipSpaceAndComma(buf, i);
          if comma {
            i := SkipScalars(buf, i, stack[depth]);
          }
        } else {
          BracketsEnded(buf, i - 1, open);
          ret := if depth == 0 && Matches(stack[depth], c) then JSONSuccess else JSONIllegalDocument;
          break;
        }
      } else {
        BracketsEnded(buf, i - 1, open);
        ret := JSONIllegalDocument;
        break;
      }
    }
    if ret == JSONPartial {
      BracketsOver(buf, i, stack[..depth + 1]);
    }
    if ret == JSONSuccess {
      end := i;
    }
  }

  function ValidateStatus(b: bytes): Status {
    if |b| == 0 then JSONBadParameter
    else
      var s := SpaceEnd(b, 0);
      var (ret, i) := match ScalarEnd(b, s) case Some(j) => (JSONSuccess, j) case None => Brackets(b, s, []);
      if ret == JSONSuccess && SpaceEnd(b, i) != |b| then JSONIllegalDocument else ret
  }

  method Validate(buf: bytes) returns (ret: Status)
    ensures ret == ValidateStatus(buf)
  {
    var i := 0;
    if |buf| == 0 {
      ret := JSONBadParameter;
    } else {
      i := SkipSpace(buf, i);
      var ok;
      ok, i := SkipAnyScalar(buf, i);
      if ok {
        ret := JSONSuccess;
      } else {
        ret, i := SkipCollection(buf, i);
      }
    }
    if ret == JSONSuccess && i < |buf| {
      i := SkipSpace(buf, i);
      if i != |buf| {
        ret := JSONIllegalDocument;
      }
    }
  }
}
