/** Scalar texts of section 2 of RFC 8259 as trees, and their agreement with the
    scalar scanners. The relaxed texts differ only by escaped control characters. */
module JsonText {
  import opened Bytes
  import opened JsonScan
  import opened Utf8

  datatype Piece =
    | Plain(cp: nat)
    | Short(c: byte)
    | Control(c: byte)
    | Unicode(h: bytes)
    | Pair(hi: bytes, lo: bytes)

  predicate IsHex4(h: bytes) {
    |h| == 4 && IsHex(h[0]) && IsHex(h[1]) && IsHex(h[2]) && IsHex(h[3])
  }

  function Hex4(h: bytes): nat
    requires IsHex4(h)
  {
    ((HexToInt(h[0]) * 16 + HexToInt(h[1])) * 16 + HexToInt(h[2])) * 16 + HexToInt(h[3])
  }

  predicate PieceValid(it: Piece, strict: bool) {
    match it
    case Plain(cp) => IsScalarValue(cp) && cp >= 32 && cp != QUOTE && cp != BACKSLASH
    case Short(c) => IsShortEscape(c)
    case Control(c) => !strict && 0 < c && IsControl(c)
    case Unicode(h) => IsHex4(h) && Hex4(h) > 0 && !IsHighSurrogate(Hex4(h)) && !IsLowSurrogate(Hex4(h))
    case Pair(hi, lo) => IsHex4(hi) && IsHex4(lo) && IsHighSurrogate(Hex4(hi)) && IsLowSurrogate(Hex4(lo))
  }

  function PieceText(it: Piece): (t: bytes)
    requires PieceValid(it, false)
    ensures |t| > 0
  {
    match it
    case Plain(cp) => Encode(cp)
    case Short(c) => [BACKSLASH, c]
    case Control(c) => [BACKSLASH, c]
    case Unicode(h) => [BACKSLASH, LOWER_U] + h
    case Pair(hi, lo) => [BACKSLASH, LOWER_U] + hi + ([BACKSLASH, LOWER_U] + lo)
  }

  predicate PiecesValid(pieces: seq<Piece>, strict: bool) {
    forall it :: it in pieces ==> PieceValid(it, strict)
  }

  /** The pieces and the closing quote. */
  function PiecesText(pieces: seq<Piece>): (t: bytes)
    requires PiecesValid(pieces, false)
    ensures |t| > 0
  {
    if pieces == [] then [QUOTE] else PieceText(pieces[0]) + PiecesText(pieces[1..])
  }

  lemma StrictPieces(pieces: seq<Piece>, strict: bool)
    requires PiecesValid(pieces, strict)
    ensures PiecesValid(pieces, false)
  {
    forall it | it in pieces ensures PieceValid(it, false) { assert PieceValid(it, strict); }
  }

  ghost predicate IsStringText(t: bytes, strict: bool) {
    exists pieces :: StringOf(pieces, strict, t)
  }

  ghost predicate StringOf(pieces: seq<Piece>, strict: bool, t: bytes) {
    PiecesValid(pieces, strict) && (StrictPieces(pieces, strict); t == [QUOTE] + PiecesText(pieces))
  }

  datatype Exponent = NoExponent | Exponent(e: byte, sign: bytes, digits: bytes)

  datatype NumberTree = NumberTree(negative: bool, digits: bytes, decimals: bytes, exponent: Exponent)

  predicate AllDigits(d: bytes) {
    forall k :: 0 <= k < |d| ==> IsDigit(d[k])
  }

  predicate NumberValid(n: NumberTree) {
    && AllDigits(n.digits) && |n.digits| > 0 && (n.digits[0] == ZERO ==> |n.digits| == 1)
    && AllDigits(n.decimals)
    && (n.exponent.Exponent? ==>
          (n.exponent.e == LOWER_E || n.exponent.e == UPPER_E)
          && (n.exponent.sign == [] || n.exponent.sign == [MINUS] || n.exponent.sign == [PLUS])
          && AllDigits(n.exponent.digits) && |n.exponent.digits| > 0)
  }

  function DecimalsText(d: bytes): bytes {
    if d == [] then [] else [DOT] + d
  }

  function ExponentText(x: Exponent): bytes {
    match x
    case NoExponent => []
    case Exponent(e, sign, digits) => [e] + (sign + digits)
  }

  function NumberText(n: NumberTree): bytes {
    (if n.negative then [MINUS] else []) + (n.digits + (DecimalsText(n.decimals) + ExponentText(n.exponent)))
  }

  ghost predicate IsNumberText(t: bytes) {
    exists n :: NumberValid(n) && t == NumberText(n)
  }

  predicate IsLiteralText(t: bytes) {
    t == TRUE_TEXT || t == FALSE_TEXT || t == NULL_TEXT
  }

  ghost predicate IsScalarText(t: bytes, strict: bool) {
    IsStringText(t, strict) || IsLiteralText(t) || IsNumberText(t)
  }

  /** The bytes that may follow a scalar inside a document. */
  predicate Delimited(b: bytes, i: nat) {
    i >= |b| || IsSpace(b[i]) || b[i] == COMMA || IsOpen(b[i]) || IsClose(b[i])
  }

  // ---- strings ----

  lemma HexFolds(b: bytes, i: nat, h: bytes)
    requires |h| == 4 && At(b, i, h)
    ensures HexFold(b, i, i + 4, 0) == if IsHex4(h) then Some(Hex4(h)) else None
  {
    assert forall k: nat | k < 4 :: b[i + k] == b[i..i + 4][k] == h[k];
    assert b[i + 0] == h[0] && b[i + 1] == h[1] && b[i + 2] == h[2] && b[i + 3] == h[3];
    if IsHex(h[0]) {
      var v0 := HexToInt(h[0]);
      assert HexFold(b, i, i + 4, 0) == HexFold(b, i + 1, i + 4, v0);
      if IsHex(h[1]) {
        var v1 := v0 * 16 + HexToInt(h[1]);
        assert HexFold(b, i + 1, i + 4, v0) == HexFold(b, i + 2, i + 4, v1);
        if IsHex(h[2]) {
          var v2 := v1 * 16 + HexToInt(h[2]);
          assert HexFold(b, i + 2, i + 4, v1) == HexFold(b, i + 3, i + 4, v2);
        }
      }
    }
  }

  lemma HexEscapeText(b: bytes, i: nat, h: bytes)
    requires IsHex4(h) && At(b, i, [BACKSLASH, LOWER_U] + h) && i + 6 < |b|
    ensures HexEscape(b, i) == if Hex4(h) > 0 then Some(Hex4(h)) else None
    ensures b[i] == BACKSLASH && b[i + 1] == LOWER_U
  {
    var t := [BACKSLASH, LOWER_U] + h;
    AtByte(b, i, t, 0);
    AtByte(b, i, t, 1);
    AtConcat(b, i, [BACKSLASH, LOWER_U], h);
    HexFolds(b, i + 2, h);
  }

  lemma PieceSkipped(b: bytes, i: nat, it: Piece)
    requires PieceValid(it, false) && At(b, i, PieceText(it)) && i + |PieceText(it)| < |b|
    ensures StringBodyEnd(b, i) == StringBodyEnd(b, i + |PieceText(it)|)
  {
    var t := PieceText(it);
    AtByte(b, i, t, 0);
    match it
    case Plain(cp) => EncodedIsSkipped(b, i, cp);
    case Short(c) => AtByte(b, i, t, 1);
    case Control(c) => AtByte(b, i, t, 1);
    case Unicode(h) => HexEscapeText(b, i, h);
    case Pair(hi, lo) =>
      AtConcat(b, i, [BACKSLASH, LOWER_U] + hi, [BACKSLASH, LOWER_U] + lo);
      HexEscapeText(b, i, hi);
      HexEscapeText(b, i + 6, lo);
  }

  lemma ClosingQuote(b: bytes, i: nat)
    requires At(b, i, [QUOTE])
    ensures StringBodyEnd(b, i) == Some(i + 1)
  {
    AtOne(b, i, QUOTE);
  }

  lemma {:induction false} PiecesSkipped(b: bytes, i: nat, pieces: seq<Piece>)
    requires PiecesValid(pieces, false) && At(b, i, PiecesText(pieces))
    ensures StringBodyEnd(b, i) == Some(i + |PiecesText(pieces)|)
    decreases |pieces|
  {
    hide StringBodyEnd, PieceText, PieceValid;
    if pieces == [] {
      ClosingQuote(b, i);
    } else {
      var head, rest := PieceText(pieces[0]), PiecesText(pieces[1..]);
      AtConcat(b, i, head, rest);
      PiecesSkipped(b, i + |head|, pieces[1..]);
      PieceSkipped(b, i, pieces[0]);
    }
  }

  lemma StringSkipped(b: bytes, i: nat, t: bytes, strict: bool)
    requires IsStringText(t, strict) && At(b, i, t)
    ensures StringEnd(b, i) == Some(i + |t|) && b[i] == QUOTE && |t| >= 2
  {
    var pieces :| StringOf(pieces, strict, t);
    StrictPieces(pieces, strict);
    var body := PiecesText(pieces);
    AtConcat(b, i, [QUOTE], body);
    AtOne(b, i, QUOTE);
    hide StringBodyEnd, PiecesText;
    PiecesSkipped(b, i + 1, pieces);
  }

  lemma HexEscapeFound(b: bytes, i: nat) returns (h: bytes)
    requires HexEscape(b, i).Some?
    ensures IsHex4(h) && Hex4(h) == HexEscape(b, i).value > 0
    ensures i + 6 < |b| && At(b, i, [BACKSLASH, LOWER_U] + h)
  {
    h := b[i + 2..i + 6];
    HexFolds(b, i + 2, h);
    assert b[i..i + 6] == [BACKSLASH, LOWER_U] + h;
  }

  lemma PieceFound(b: bytes, i: nat) returns (it: Piece)
    requires i < |b| && b[i] != QUOTE && StringBodyEnd(b, i).Some?
    ensures PieceValid(it, false) && At(b, i, PieceText(it))
    ensures StringBodyEnd(b, i) == StringBodyEnd(b, i + |PieceText(it)|)
  {
    if b[i] == BACKSLASH {
      var c := b[i + 1];
      if c == LOWER_U {
        var h := HexEscapeFound(b, i);
        if IsHighSurrogate(Hex4(h)) {
          var lo := HexEscapeFound(b, i + 6);
          AtConcat(b, i, [BACKSLASH, LOWER_U] + h, [BACKSLASH, LOWER_U] + lo);
          it := Pair(h, lo);
        } else {
          it := Unicode(h);
        }
      } else {
        it := if IsShortEscape(c) then Short(c) else Control(c);
        assert b[i..i + 2] == PieceText(it);
      }
    } else {
      var cp := SkippedIsEncoded(b, i);
      it := Plain(cp);
    }
  }

  lemma QuoteEnds(b: bytes, i: nat)
    requires StringBodyEnd(b, i).Some?
    ensures i < |b| && (b[i] == QUOTE ==> StringBodyEnd(b, i) == Some(i + 1))
  {
  }

  lemma NoPieces()
    ensures PiecesValid([], false) && PiecesText([]) == [QUOTE]
  {
  }

  lemma MorePieces(it: Piece, rest: seq<Piece>)
    requires PieceValid(it, false) && PiecesValid(rest, false)
    ensures PiecesValid([it] + rest, false) && PiecesText([it] + rest) == PieceText(it) + PiecesText(rest)
  {
    assert ([it] + rest)[1..] == rest;
    hide PieceValid, PieceText;
  }

  lemma {:induction false} PiecesFound(b: bytes, i: nat) returns (pieces: seq<Piece>)
    requires StringBodyEnd(b, i).Some?
    ensures PiecesValid(pieces, false) && At(b, i, PiecesText(pieces))
    ensures StringBodyEnd(b, i).value == i + |PiecesText(pieces)|
    decreases |b| - i
  {
    hide *;
    QuoteEnds(b, i);
    if b[i] == QUOTE {
      pieces := [];
      NoPieces();
      AtOne(b, i, QUOTE);
    } else {
      var it := PieceFound(b, i);
      var rest := PiecesFound(b, i + |PieceText(it)|);
      pieces := [it] + rest;
      MorePieces(it, rest);
      AtConcat(b, i, PieceText(it), PiecesText(rest));
    }
  }

  lemma StringFound(b: bytes, i: nat)
    requires StringEnd(b, i).Some?
    ensures IsStringText(b[i..StringEnd(b, i).value], false)
  {
    var pieces := PiecesFound(b, i + 1);
    var k := StringEnd(b, i).value;
    assert b[i..k] == [QUOTE] + b[i + 1..k];
    assert StringOf(pieces, false, b[i..k]);
  }

  // ---- numbers ----

  predicate DigitsStop(b: bytes, i: nat) {
    i >= |b| || !IsDigit(b[i])
  }

  lemma {:induction false} DigitsSkipped(b: bytes, i: nat, d: bytes)
    requires AllDigits(d) && At(b, i, d) && DigitsStop(b, i + |d|)
    ensures DigitsEnd(b, i) == i + |d|
    decreases |d|
  {
    if d != [] {
      AtByte(b, i, d, 0);
      assert b[i + 1..i + |d|] == b[i..i + |d|][1..] == d[1..];
      DigitsSkipped(b, i + 1, d[1..]);
    }
  }

  lemma {:induction false} DigitsFound(b: bytes, i: nat)
    requires i <= |b|
    ensures AllDigits(b[i..DigitsEnd(b, i)])
    decreases |b| - i
  {
    if i < |b| && IsDigit(b[i]) {
      DigitsFound(b, i + 1);
      assert b[i..DigitsEnd(b, i)] == [b[i]] + b[i + 1..DigitsEnd(b, i)];
    }
  }

  predicate NumberStops(b: bytes, i: nat) {
    i >= |b| || !(IsDigit(b[i]) || b[i] == DOT || b[i] == LOWER_E || b[i] == UPPER_E)
  }

  lemma ExponentFrom(b: bytes, i: nat, s: nat, k: nat)
    requires i < |b| && (b[i] == LOWER_E || b[i] == UPPER_E) && SignEnd(b, i + 1) == s && DigitsEnd(b, s) == k > s
    ensures ExponentEnd(b, i) == k && DigitsStop(b, i) && b[i] != DOT
  {
    hide SignEnd, DigitsEnd;
  }

  lemma SignSkipped(b: bytes, i: nat, sign: bytes)
    requires At(b, i, sign) && (sign == [] || sign == [MINUS] || sign == [PLUS])
    requires i + |sign| < |b| && IsDigit(b[i + |sign|])
    ensures SignEnd(b, i) == i + |sign|
  {
    if sign != [] {
      AtOne(b, i, sign[0]);
    }
  }

  lemma NoExponentHere(b: bytes, i: nat)
    requires NumberStops(b, i)
    ensures ExponentEnd(b, i) == i && DigitsStop(b, i) && (i < |b| ==> b[i] != DOT)
  {
    hide SignEnd, DigitsEnd;
  }

  lemma ExponentParts(n: NumberTree)
    requires NumberValid(n) && n.exponent.Exponent?
    ensures var x := n.exponent;
            && (x.e == LOWER_E || x.e == UPPER_E) && (x.sign == [] || x.sign == [MINUS] || x.sign == [PLUS])
            && AllDigits(x.digits) && |x.digits| > 0 && ExponentText(x) == [x.e] + (x.sign + x.digits)
  {
    hide AllDigits;
  }

  lemma StopsDigits(b: bytes, i: nat)
    requires NumberStops(b, i)
    ensures DigitsStop(b, i)
  {
  }

  lemma ExponentSkipped(b: bytes, i: nat, n: NumberTree)
    requires NumberValid(n) && At(b, i, ExponentText(n.exponent)) && NumberStops(b, i + |ExponentText(n.exponent)|)
    ensures ExponentEnd(b, i) == i + |ExponentText(n.exponent)|
    ensures DigitsStop(b, i) && (i < |b| ==> b[i] != DOT)
  {
    if n.exponent.NoExponent? {
      NoExponentHere(b, i);
    } else {
      hide *;
      ExponentParts(n);
      WrittenExponentSkipped(b, i, n.exponent.e, n.exponent.sign, n.exponent.digits);
    }
  }

  lemma WrittenExponentSkipped(b: bytes, i: nat, e: byte, sign: bytes, digits: bytes)
    requires (e == LOWER_E || e == UPPER_E) && (sign == [] || sign == [MINUS] || sign == [PLUS])
    requires AllDigits(digits) && |digits| > 0
    requires At(b, i, [e] + (sign + digits)) && NumberStops(b, i + |[e] + (sign + digits)|)
    ensures ExponentEnd(b, i) == i + |[e] + (sign + digits)|
    ensures DigitsStop(b, i) && (i < |b| ==> b[i] != DOT)
  {
    hide *;
    var rest, s := sign + digits, i + 1 + |sign|;
    var end := i + |[e] + rest|;
    assert end == s + |digits|;
    AtConcat(b, i, [e], rest);
    AtOne(b, i, e);
    AtConcat(b, i + 1, sign, digits);
    DigitAt(b, s, digits);
    SignSkipped(b, i + 1, sign);
    StopsDigits(b, end);
    DigitsSkipped(b, s, digits);
    ExponentFrom(b, i, s, end);
  }

  lemma DigitAt(b: bytes, i: nat, d: bytes)
    requires At(b, i, d) && AllDigits(d) && |d| > 0
    ensures i < |b| && IsDigit(b[i])
  {
    AtByte(b, i, d, 0);
  }

  lemma DecimalsSkipped(b: bytes, i: nat, d: bytes)
    requires AllDigits(d) && At(b, i, DecimalsText(d))
    requires var k := i + |DecimalsText(d)|; DigitsStop(b, k) && (k < |b| ==> b[k] != DOT)
    ensures DecimalsEnd(b, i) == i + |DecimalsText(d)|
    ensures DigitsStop(b, i)
  {
    if d != [] {
      AtConcat(b, i, [DOT], d);
      AtOne(b, i, DOT);
      DigitsSkipped(b, i + 1, d);
    }
  }

  function SignText(n: NumberTree): bytes {
    if n.negative then [MINUS] else []
  }

  /** Where the digits, the decimals and the exponent of a number text stand. */
  lemma NumberPieces(b: bytes, i: nat, n: NumberTree) returns (j: nat, k: nat, m: nat)
    requires At(b, i, NumberText(n))
    ensures At(b, i, SignText(n)) && j == i + |SignText(n)|
    ensures At(b, j, n.digits) && k == j + |n.digits|
    ensures At(b, k, DecimalsText(n.decimals)) && m == k + |DecimalsText(n.decimals)|
    ensures At(b, m, ExponentText(n.exponent)) && i + |NumberText(n)| == m + |ExponentText(n.exponent)|
  {
    hide At, ExponentText, DecimalsText;
    var d, x := DecimalsText(n.decimals), ExponentText(n.exponent);
    j := i + |SignText(n)|;
    k := j + |n.digits|;
    m := k + |d|;
    AtConcat(b, i, SignText(n), n.digits + (d + x));
    AtConcat(b, j, n.digits, d + x);
    AtConcat(b, k, d, x);
  }

  lemma IntegerSkipped(b: bytes, i: nat, j: nat, n: NumberTree)
    requires NumberValid(n) && At(b, i, SignText(n)) && j == i + |SignText(n)| && At(b, j, n.digits)
    requires DigitsStop(b, j + |n.digits|)
    ensures MinusEnd(b, i) == j && IntegerEnd(b, j) == Some(j + |n.digits|)
    ensures b[i] == MINUS || IsDigit(b[i])
  {
    AtByte(b, j, n.digits, 0);
    if n.negative { AtOne(b, i, MINUS); }
    DigitsSkipped(b, j, n.digits);
  }

  lemma NumberTreeSkipped(b: bytes, i: nat, n: NumberTree)
    requires NumberValid(n) && At(b, i, NumberText(n)) && NumberStops(b, i + |NumberText(n)|)
    ensures NumberEnd(b, i) == Some(i + |NumberText(n)|) && (b[i] == MINUS || IsDigit(b[i]))
  {
    hide At, ExponentText, DecimalsText, DecimalsEnd, ExponentEnd, DigitsEnd, IntegerEnd, MinusEnd, NumberText;
    var j, k, m := NumberPieces(b, i, n);
    ExponentSkipped(b, m, n);
    DecimalsSkipped(b, k, n.decimals);
    IntegerSkipped(b, i, j, n);
  }

  lemma NumberSkipped(b: bytes, i: nat, t: bytes)
    requires IsNumberText(t) && At(b, i, t) && NumberStops(b, i + |t|)
    ensures NumberEnd(b, i) == Some(i + |t|) && (b[i] == MINUS || IsDigit(b[i])) && |t| >= 1
  {
    var n :| NumberValid(n) && t == NumberText(n);
    hide NumberEnd, NumberText;
    NumberTreeSkipped(b, i, n);
  }

  lemma IntegerFound(b: bytes, j: nat)
    requires IntegerEnd(b, j).Some?
    ensures var d := b[j..IntegerEnd(b, j).value]; AllDigits(d) && |d| > 0 && (d[0] == ZERO ==> |d| == 1)
  {
    DigitsFound(b, j);
  }

  lemma DecimalsFound(b: bytes, k: nat) returns (d: bytes)
    requires k <= |b|
    ensures AllDigits(d) && b[k..DecimalsEnd(b, k)] == DecimalsText(d)
  {
    var m := DecimalsEnd(b, k);
    d := [];
    if m > k {
      DigitsFound(b, k + 1);
      d := b[k + 1..m];
      assert b[k..m] == [DOT] + d;
    }
  }

  lemma ExponentFound(b: bytes, m: nat) returns (x: Exponent)
    requires m <= |b|
    ensures NumberValid(NumberTree(false, [ZERO], [], x)) && b[m..ExponentEnd(b, m)] == ExponentText(x)
  {
    var z := ExponentEnd(b, m);
    x := NoExponent;
    if z > m {
      var s := SignEnd(b, m + 1);
      DigitsFound(b, s);
      x := Exponent(b[m], b[m + 1..s], b[s..z]);
      if s > m + 1 { assert b[m + 1..s] == [b[m + 1]]; }
      assert b[m..z] == [b[m]] + (b[m + 1..s] + b[s..z]);
    }
  }

  lemma NumberParts(b: bytes, i: nat) returns (j: nat, k: nat, m: nat, z: nat)
    requires NumberEnd(b, i).Some?
    ensures j == MinusEnd(b, i) && IntegerEnd(b, j) == Some(k) && m == DecimalsEnd(b, k) && z == ExponentEnd(b, m)
    ensures i <= j <= k <= m <= z <= |b| && NumberEnd(b, i) == Some(z)
    ensures b[i..j] == if j > i then [MINUS] else []
  {
    j := MinusEnd(b, i);
    k := IntegerEnd(b, j).value;
    m := DecimalsEnd(b, k);
    z := ExponentEnd(b, m);
    hide IntegerEnd, DecimalsEnd, ExponentEnd;
  }

  lemma NumberIs(n: NumberTree, x: Exponent)
    requires AllDigits(n.digits) && |n.digits| > 0 && (n.digits[0] == ZERO ==> |n.digits| == 1) && AllDigits(n.decimals)
    requires NumberValid(NumberTree(false, [ZERO], [], x)) && n.exponent == x
    ensures NumberValid(n) && IsNumberText(NumberText(n))
  {
    hide NumberText, AllDigits;
  }

  lemma FourSlices(b: bytes, i: nat, j: nat, k: nat, m: nat, z: nat)
    requires i <= j <= k <= m <= z <= |b|
    ensures b[i..z] == b[i..j] + (b[j..k] + (b[k..m] + b[m..z]))
  {
  }

  lemma NumberFound(b: bytes, i: nat)
    requires NumberEnd(b, i).Some?
    ensures IsNumberText(b[i..NumberEnd(b, i).value])
  {
    hide *;
    var j, k, m, z := NumberParts(b, i);
    IntegerFound(b, j);
    var decimals := DecimalsFound(b, k);
    var exponent := ExponentFound(b, m);
    var n := NumberTree(j > i, b[j..k], decimals, exponent);
    FourSlices(b, i, j, k, m, z);
    NumberIs(n, exponent);
    NumberTextIs(n);
  }

  lemma NumberTextIs(n: NumberTree)
    ensures NumberText(n) ==
            (if n.negative then [MINUS] else []) + (n.digits + (DecimalsText(n.decimals) + ExponentText(n.exponent)))
  {
    hide DecimalsText, ExponentText;
  }

  // ---- scalars ----

  predicate ScalarStart(c: byte) {
    c == QUOTE || c == MINUS || IsDigit(c) || c == 116 || c == 102 || c == 110
  }

  lemma LiteralSkipped(b: bytes, i: nat, t: bytes)
    requires IsLiteralText(t) && At(b, i, t)
    ensures LiteralEnd(b, i) == Some(i + |t|) && (b[i] == 116 || b[i] == 102 || b[i] == 110)
  {
    AtByte(b, i, t, 0);
    if At(b, i, TRUE_TEXT) { AtByte(b, i, TRUE_TEXT, 0); }
    if At(b, i, FALSE_TEXT) { AtByte(b, i, FALSE_TEXT, 0); }
    if At(b, i, NULL_TEXT) { AtByte(b, i, NULL_TEXT, 0); }
  }

  lemma LiteralFound(b: bytes, i: nat)
    requires LiteralEnd(b, i).Some?
    ensures IsLiteralText(b[i..LiteralEnd(b, i).value]) && (b[i] == 116 || b[i] == 102 || b[i] == 110)
  {
    if At(b, i, TRUE_TEXT) { AtByte(b, i, TRUE_TEXT, 0); }
    else if At(b, i, FALSE_TEXT) { AtByte(b, i, FALSE_TEXT, 0); }
    else { AtByte(b, i, NULL_TEXT, 0); }
  }

  /** A scalar text followed by a delimiter is skipped exactly. */
  lemma ScalarSkipped(b: bytes, i: nat, t: bytes, strict: bool)
    requires IsScalarText(t, strict) && At(b, i, t) && Delimited(b, i + |t|)
    ensures ScalarEnd(b, i) == Some(i + |t|) && |t| > 0 && ScalarStart(b[i])
    ensures b[i] == QUOTE <==> IsStringText(t, strict)
    ensures b[i] == QUOTE ==> |t| >= 2
  {
    if IsStringText(t, strict) {
      StringSkipped(b, i, t, strict);
    } else if IsLiteralText(t) {
      LiteralSkipped(b, i, t);
    } else {
      NumberSkipped(b, i, t);
      if LiteralEnd(b, i).Some? { LiteralFound(b, i); }
    }
  }

  /** Every skipped scalar is a scalar text. */
  lemma ScalarFound(b: bytes, i: nat)
    requires ScalarEnd(b, i).Some?
    ensures IsScalarText(b[i..ScalarEnd(b, i).value], false) && ScalarStart(b[i])
  {
    if StringEnd(b, i).Some? {
      StringFound(b, i);
    } else if LiteralEnd(b, i).Some? {
      LiteralFound(b, i);
    } else {
      NumberFound(b, i);
    }
  }
}
