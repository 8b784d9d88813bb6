/** The request header block of source/corehttp/core_http_client.cpp: a buffer that is filled with a
    request line and header lines, and how it is read back (section 3 of RFC 7230). */
module RequestHeaders {
  import opened Bytes

  const CR: byte := 13
  const LF: byte := 10
  const SPACE: byte := 32
  const COLON: byte := 58
  const CRLF: bytes := [13, 10]
  const END_INDICATOR: bytes := [13, 10, 13, 10]
  const FIELD_SEPARATOR: bytes := [58, 32]
  const PROTOCOL_VERSION: bytes := [72, 84, 84, 80, 47, 49, 46, 49]
  const EMPTY_PATH: bytes := [47]

  datatype Status = HTTPSuccess | HTTPInsufficientMemory | HTTPSecurityAlertInvalidCharacter | HTTPInvalidParameter

  datatype Header = Header(field: bytes, value: bytes)

  // ---- the text ----

  /** A character that must not stand in a field or a value. */
  predicate IsInvalid(c: byte, isField: bool) {
    c == CR || c == LF || (isField && c == COLON)
  }

  /** The number of characters before the first that is invalid. */
  function ValidLength(t: bytes, isField: bool): (n: nat)
    ensures n <= |t|
    ensures forall k | 0 <= k < n :: !IsInvalid(t[k], isField)
    ensures n < |t| ==> IsInvalid(t[n], isField)
  {
    if t == [] || IsInvalid(t[0], isField) then 0 else 1 + ValidLength(t[1..], isField)
  }

  predicate IsText(t: bytes, isField: bool) {
    ValidLength(t, isField) == |t|
  }

  predicate IsHeader(h: Header) {
    h.field != [] && h.value != [] && IsText(h.field, true) && IsText(h.value, false)
  }

  function HeaderLine(h: Header): bytes {
    h.field + FIELD_SEPARATOR + h.value + CRLF
  }

  function HeaderLines(hs: seq<Header>): bytes {
    if hs == [] then [] else HeaderLine(hs[0]) + HeaderLines(hs[1..])
  }

  /** The block for a request line and headers: once there are headers, an empty line ends it. */
  function Block(line: bytes, hs: seq<Header>): bytes {
    if hs == [] then line else line + HeaderLines(hs) + CRLF
  }

  function RequestText(verb: bytes, path: bytes): bytes {
    verb + [SPACE] + (if path == [] then EMPTY_PATH else path) + [SPACE] + PROTOCOL_VERSION
  }

  function RequestLine(verb: bytes, path: bytes): bytes {
    RequestText(verb, path) + CRLF
  }

  predicate EndsWith(b: bytes, t: bytes) {
    |t| <= |b| && b[|b| - |t|..] == t
  }

  /** Where the next header line begins: over the empty line, if there is one. */
  function Backtrack(b: bytes): (n: nat)
    ensures n <= |b|
  {
    if EndsWith(b, END_INDICATOR) then |b| - 2 else |b|
  }

  /** The block with one more header. */
  function WithHeader(b: bytes, h: Header): bytes {
    b[..Backtrack(b)] + h.field + FIELD_SEPARATOR + h.value + END_INDICATOR
  }

  lemma {:induction false} LinesAppend(hs: seq<Header>, h: Header)
    ensures HeaderLines(hs + [h]) == HeaderLines(hs) + HeaderLine(h)
    decreases |hs|
  {
    hide HeaderLine;
    if hs == [] {
      assert [h][1..] == [];
      assert hs + [h] == [h];
    } else {
      assert (hs + [h])[1..] == hs[1..] + [h] && (hs + [h])[0] == hs[0];
      LinesAppend(hs[1..], h);
    }
  }

  lemma LinesEnd(hs: seq<Header>)
    requires hs != []
    ensures EndsWith(HeaderLines(hs), CRLF)
  {
    var n := |hs| - 1;
    assert hs == hs[..n] + [hs[n]];
    LinesAppend(hs[..n], hs[n]);
    var b, l := HeaderLines(hs[..n]), HeaderLine(hs[n]);
    assert l[|l| - 2..] == CRLF;
    assert (b + l)[|b + l| - 2..] == l[|l| - 2..];
  }

  /** A request line is not mistaken for the end of a block. */
  lemma LineIsNoEnd(verb: bytes, path: bytes)
    ensures !EndsWith(RequestLine(verb, path), END_INDICATOR)
  {
    var l := RequestLine(verb, path);
    assert l[|l| - 4..][0] == 46;
    assert END_INDICATOR[0] == 13;
  }

  /** Adding a header appends it to the list that the block writes. */
  lemma BlockGrows(verb: bytes, path: bytes, hs: seq<Header>, h: Header)
    ensures WithHeader(Block(RequestLine(verb, path), hs), h) == Block(RequestLine(verb, path), hs + [h])
  {
    LineIsNoEnd(verb, path);
    hide RequestLine, HeaderLines, HeaderLine, EndsWith;
    if hs == [] {
      assert hs + [h] == [h];
      FirstHeader(RequestLine(verb, path), h);
    } else {
      NextHeader(RequestLine(verb, path), hs, h);
    }
  }

  lemma FirstHeader(line: bytes, h: Header)
    requires !EndsWith(line, END_INDICATOR)
    ensures WithHeader(Block(line, []), h) == Block(line, [h])
  {
    hide EndsWith;
    LinesAppend([], h);
    assert [] + [h] == [h];
    NoLines();
    hide HeaderLines;
    assert line[..|line|] == line;
    assert line + h.field + FIELD_SEPARATOR + h.value + END_INDICATOR == line + ([] + HeaderLine(h)) + CRLF;
  }

  lemma NoLines()
    ensures HeaderLines([]) == []
  {
  }

  lemma NextHeader(line: bytes, hs: seq<Header>, h: Header)
    requires hs != []
    ensures WithHeader(Block(line, hs), h) == Block(line, hs + [h])
  {
    hide EndsWith, HeaderLines;
    LinesEnd(hs);
    LinesAppend(hs, h);
    BlockCut(line, HeaderLines(hs));
    var b := line + HeaderLines(hs);
    assert b + h.field + FIELD_SEPARATOR + h.value + END_INDICATOR == line + (HeaderLines(hs) + HeaderLine(h)) + CRLF;
  }

  lemma BlockCut(line: bytes, lines: bytes)
    requires EndsWith(lines, CRLF)
    ensures var b := line + lines + CRLF; EndsWith(b, END_INDICATOR) && b[..|b| - 2] == line + lines
  {
    var b := line + lines + CRLF;
    assert b[|b| - 4..] == lines[|lines| - 2..] + CRLF;
    assert lines[|lines| - 2..] + CRLF == END_INDICATOR;
  }

  // ---- reading the block ----

  function FirstOf(b: bytes, c: byte): (n: nat)
    ensures n <= |b|
  {
    if b == [] || b[0] == c then 0 else 1 + FirstOf(b[1..], c)
  }

  /** The headers of a list of lines that an empty line ends. */
  function SplitHeaders(b: bytes): Option<seq<Header>>
    decreases |b|
  {
    var j := FirstOf(b, CR);
    if j + 1 >= |b| || b[j + 1] != LF then None
    else if j == 0 then (if |b| == 2 then Some([]) else None)
    else
      var c := FirstOf(b[..j], COLON);
      if c + 1 >= j || b[c + 1] != SPACE then None
      else
        var rest := SplitHeaders(b[j + 2..]);
        if rest.None? then None else Some([Header(b[..c], b[c + 2..j])] + rest.value)
  }

  lemma {:induction false} FirstIn(t: bytes, c: byte, rest: bytes)
    requires c !in t
    ensures FirstOf(t + [c] + rest, c) == |t|
    decreases |t|
  {
    var b := t + [c] + rest;
    if t != [] {
      assert b[0] == t[0] && b[1..] == t[1..] + [c] + rest;
      FirstIn(t[1..], c, rest);
    }
  }

  lemma HeaderChars(h: Header)
    requires IsHeader(h)
    ensures CR !in h.field && COLON !in h.field && CR !in h.value
  {
  }

  lemma LineRead(h: Header, rest: bytes)
    requires IsHeader(h)
    ensures var b := HeaderLine(h) + rest; var j := |h.field| + 2 + |h.value|;
            && |b| >= j + 2
            && FirstOf(b, CR) == j && b[j + 1] == LF && b[j + 2..] == rest && j > 0
            && FirstOf(b[..j], COLON) == |h.field| && b[|h.field| + 1] == SPACE
            && b[..|h.field|] == h.field && b[|h.field| + 2..j] == h.value
  {
    HeaderChars(h);
    var t := h.field + FIELD_SEPARATOR + h.value;
    var b := HeaderLine(h) + rest;
    assert b == t + [CR] + ([LF] + rest);
    assert CR !in t;
    FirstIn(t, CR, [LF] + rest);
    assert b[..|t|] == t;
    assert t == h.field + [COLON] + ([SPACE] + h.value);
    FirstIn(h.field, COLON, [SPACE] + h.value);
    hide HeaderLine, FirstOf, IsHeader;
  }

  /** Splitting the lines of a block recovers the headers, in order. */
  lemma {:induction false} LinesRead(hs: seq<Header>)
    requires forall i | 0 <= i < |hs| :: IsHeader(hs[i])
    ensures SplitHeaders(HeaderLines(hs) + CRLF) == Some(hs)
    decreases |hs|
  {
    if hs == [] {
      assert HeaderLines(hs) + CRLF == CRLF;
      assert FirstOf(CRLF, CR) == 0;
    } else {
      hide IsHeader, HeaderLine, SplitHeaders, FirstOf;
      var rest := HeaderLines(hs[1..]) + CRLF;
      assert HeaderLines(hs) + CRLF == HeaderLine(hs[0]) + rest;
      LinesRead(hs[1..]);
      SplitStep(hs[0], rest, hs[1..]);
      assert [hs[0]] + hs[1..] == hs;
    }
  }

  lemma SplitStep(h: Header, rest: bytes, hs: seq<Header>)
    requires IsHeader(h) && SplitHeaders(rest) == Some(hs)
    ensures SplitHeaders(HeaderLine(h) + rest) == Some([h] + hs)
  {
    LineRead(h, rest);
    hide HeaderLine, FirstOf, IsHeader;
  }

  datatype Request = Request(line: bytes, headers: seq<Header>)

  /** A block is a line, and headers after it if there is more. */
  function SplitBlock(b: bytes): Option<Request> {
    var j := FirstOf(b, CR);
    if j + 1 >= |b| || b[j + 1] != LF then None
    else if j + 2 == |b| then Some(Request(b[..j], []))
    else
      var hs := SplitHeaders(b[j + 2..]);
      if hs.None? then None else Some(Request(b[..j], hs.value))
  }

  lemma SplitLine(t: bytes, rest: bytes)
    requires CR !in t
    ensures var b := t + CRLF + rest;
            FirstOf(b, CR) == |t| && b[|t| + 1] == LF && b[..|t|] == t && b[|t| + 2..] == rest
            && |b| == |t| + 2 + |rest|
  {
    assert t + CRLF + rest == t + [CR] + ([LF] + rest);
    FirstIn(t, CR, [LF] + rest);
    hide FirstOf;
  }

  lemma TextRead(t: bytes, hs: seq<Header>)
    requires CR !in t && forall i | 0 <= i < |hs| :: IsHeader(hs[i])
    ensures SplitBlock(Block(t + CRLF, hs)) == Some(Request(t, hs))
  {
    hide FirstOf, HeaderLines, SplitHeaders, IsHeader;
    if hs == [] {
      assert t + CRLF + [] == t + CRLF;
      SplitLine(t, []);
    } else {
      var rest := HeaderLines(hs) + CRLF;
      LinesRead(hs);
      LinesEnd(hs);
      assert Block(t + CRLF, hs) == t + CRLF + rest;
      SplitLine(t, rest);
    }
  }

  lemma {:induction false} FirstEarlier(t: bytes, c: byte, rest: bytes)
    requires c in t
    ensures FirstOf(t + rest, c) < |t|
    decreases |t|
  {
    if t[0] != c {
      assert (t + rest)[1..] == t[1..] + rest;
      FirstEarlier(t[1..], c, rest);
    }
  }

  lemma TextCut(t: bytes, hs: seq<Header>)
    requires CR in t
    ensures SplitBlock(Block(t + CRLF, hs)) != Some(Request(t, hs))
  {
    hide HeaderLines, SplitHeaders;
    var rest := if hs == [] then CRLF else CRLF + (HeaderLines(hs) + CRLF);
    assert Block(t + CRLF, hs) == t + rest;
    FirstEarlier(t, CR, rest);
    hide FirstOf;
  }

  lemma TextBreaks(verb: bytes, path: bytes)
    ensures CR in RequestText(verb, path) <==> CR in verb || CR in path
  {
    var t := RequestText(verb, path);
    var p := if path == [] then EMPTY_PATH else path;
    assert forall k | 0 <= k < |verb| :: t[k] == verb[k];
    assert forall k | 0 <= k < |p| :: t[|verb| + 1 + k] == p[k];
  }

  /** The block reads back as its request line and its headers, if and only if the method and the path,
      which are copied unchecked, hold no carriage return. */
  lemma BlockRead(verb: bytes, path: bytes, hs: seq<Header>)
    requires forall i | 0 <= i < |hs| :: IsHeader(hs[i])
    ensures SplitBlock(Block(RequestLine(verb, path), hs)) == Some(Request(RequestText(verb, path), hs))
            <==> CR !in verb && CR !in path
  {
    hide RequestText, IsHeader, SplitBlock, Block;
    TextBreaks(verb, path);
    var t := RequestText(verb, path);
    if CR in t {
      TextCut(t, hs);
    } else {
      TextRead(t, hs);
    }
  }

  // ---- the request line ----

  /** The three parts of a request line (section 3.1.1 of RFC 7230). */
  datatype Line = Line(verb: bytes, target: bytes, version: bytes)

  /** A request line, split at its first two spaces. */
  function SplitRequestLine(t: bytes): Option<Line> {
    var i := FirstOf(t, SPACE);
    if i == |t| then None
    else
      var r := t[i + 1..];
      var j := FirstOf(r, SPACE);
      if j == |r| then None else Some(Line(t[..i], r[..j], r[j + 1..]))
  }

  function LineText(l: Line): bytes {
    l.verb + [SPACE] + (l.target + [SPACE] + l.version)
  }

  function Target(path: bytes): bytes {
    if path == [] then EMPTY_PATH else path
  }

  lemma {:induction false} FirstIs(t: bytes, c: byte)
    ensures FirstOf(t, c) < |t| ==> t == t[..FirstOf(t, c)] + [c] + t[FirstOf(t, c) + 1..]
    decreases |t|
  {
    if t != [] && t[0] != c { FirstIs(t[1..], c); }
  }

  /** The parts of a split line write that line. */
  lemma LineJoins(t: bytes)
    requires SplitRequestLine(t).Some?
    ensures t == LineText(SplitRequestLine(t).value)
  {
    FirstIs(t, SPACE);
    FirstIs(t[FirstOf(t, SPACE) + 1..], SPACE);
    hide FirstOf;
  }

  /** A line splits into the parts it was written from, if and only if the first two hold no space. */
  lemma LineSplits(l: Line)
    ensures SplitRequestLine(LineText(l)) == Some(l) <==> SPACE !in l.verb && SPACE !in l.target
  {
    var r := l.target + [SPACE] + l.version;
    var t := LineText(l);
    assert t == l.verb + ([SPACE] + r) && r == l.target + ([SPACE] + l.version);
    if SPACE in l.verb {
      FirstEarlier(l.verb, SPACE, [SPACE] + r);
    } else {
      FirstIn(l.verb, SPACE, r);
      assert t[|l.verb| + 1..] == r && t[..|l.verb|] == l.verb;
      if SPACE in l.target {
        FirstEarlier(l.target, SPACE, [SPACE] + l.version);
      } else {
        FirstIn(l.target, SPACE, l.version);
        assert r[..|l.target|] == l.target && r[|l.target| + 1..] == l.version;
      }
    }
    hide FirstOf;
  }

  /** A block read as the three parts of its request line and its headers. */
  function ReadBlock(b: bytes): Option<(Line, seq<Header>)> {
    match SplitBlock(b)
    case None => None
    case Some(r) =>
      match SplitRequestLine(r.line)
      case None => None
      case Some(l) => Some((l, r.headers))
  }

  lemma RequestTextIs(verb: bytes, path: bytes)
    ensures RequestText(verb, path) == LineText(Line(verb, Target(path), PROTOCOL_VERSION))
    ensures SPACE !in Target(path) <==> SPACE !in path
  {
    assert SPACE !in EMPTY_PATH;
  }

  /** The block reads back as method, target, version and headers, if and only if neither the method nor the
      path holds a carriage return or a space. */
  lemma RequestRead(verb: bytes, path: bytes, hs: seq<Header>)
    requires forall i | 0 <= i < |hs| :: IsHeader(hs[i])
    ensures ReadBlock(Block(RequestLine(verb, path), hs)) == Some((Line(verb, Target(path), PROTOCOL_VERSION), hs))
            <==> CR !in verb && CR !in path && SPACE !in verb && SPACE !in path
  {
    hide Block, RequestLine, SplitBlock, SplitRequestLine, LineText, IsHeader, RequestText, Target;
    var b, l := Block(RequestLine(verb, path), hs), Line(verb, Target(path), PROTOCOL_VERSION);
    BlockRead(verb, path, hs);
    RequestTextIs(verb, path);
    LineSplits(l);
    if ReadBlock(b) == Some((l, hs)) {
      LineJoins(SplitBlock(b).value.line);
      assert SplitBlock(b).value == Request(RequestText(verb, path), hs);
    }
  }

  // ---- the buffer ----

  /** b with t written over it at dest. */
  function Overwritten(b: bytes, dest: nat, t: bytes): (r: bytes)
    requires dest + |t| <= |b|
    ensures |r| == |b|
  {
    b[..dest] + t + b[dest + |t|..]
  }

  lemma OneMore(b: bytes, dest: nat, t: bytes, n: nat)
    requires n < |t| && dest + |t| <= |b|
    ensures Overwritten(b, dest, t[..n])[dest + n := t[n]] == Overwritten(b, dest, t[..n + 1])
  {
    assert t[..n + 1] == t[..n] + [t[n]];
  }

  lemma NoneYet(b: bytes, dest: nat)
    requires dest <= |b|
    ensures Overwritten(b, dest, []) == b
  {
  }

  /** memcpy into the buffer. */
  method Copy(a: array<byte>, dest: nat, src: bytes)
    requires dest + |src| <= a.Length
    modifies a
    ensures a[..] == Overwritten(old(a[..]), dest, src)
  {
    hide Overwritten;
    NoneYet(a[..], dest);
    var i := 0;
    while i < |src|
      invariant i <= |src| && a[..] == Overwritten(old(a[..]), dest, src[..i])
    {
      OneMore(old(a[..]), dest, src, i);
      a[dest + i] := src[i];
      i := i + 1;
    }
    assert src[..|src|] == src;
  }

  /** The first n characters are valid. */
  predicate ValidUpTo(t: bytes, isField: bool, n: nat) {
    n <= |t| && forall k | 0 <= k < n :: !IsInvalid(t[k], isField)
  }

  lemma ValidAt(t: bytes, isField: bool, n: nat)
    requires ValidUpTo(t, isField, n)
    ensures n < |t| && IsInvalid(t[n], isField) ==> ValidLength(t, isField) == n
    ensures n < |t| && !IsInvalid(t[n], isField) ==> ValidUpTo(t, isField, n + 1)
    ensures n == |t| ==> ValidLength(t, isField) == n
  {
    hide IsInvalid;
  }

  /** httpHeaderStrncpy: copies up to the first invalid character, and tells whether there was none. */
  method HttpHeaderStrncpy(a: array<byte>, dest: nat, src: bytes, isField: bool) returns (ok: bool)
    requires dest + |src| <= a.Length
    modifies a
    ensures ok <==> IsText(src, isField)
    ensures a[..] == Overwritten(old(a[..]), dest, src[..ValidLength(src, isField)])
  {
    hide ValidLength, IsInvalid, Overwritten, ValidUpTo;
    NoneYet(a[..], dest);
    StartValid(src, isField);
    var i := 0;
    while i < |src|
      invariant i <= |src| && a[..] == Overwritten(old(a[..]), dest, src[..i])
      invariant ValidUpTo(src, isField, i)
    {
      ValidAt(src, isField, i);
      if IsInvalid(src[i], isField) {
        return false;
      }
      OneMore(old(a[..]), dest, src, i);
      a[dest + i] := src[i];
      i := i + 1;
    }
    ValidAt(src, isField, i);
    ok := true;
  }

  lemma StartValid(t: bytes, isField: bool)
    ensures ValidUpTo(t, isField, 0)
  {
  }

  // ---- adding a header ----

  /** The bytes of the buffer after addHeader has tried to write at base. */
  function Attempt(b: bytes, base: nat, h: Header): (r: bytes)
    requires base + |h.field| + 2 + |h.value| + 4 <= |b|
    ensures |r| == |b|
  {
    var f, v := ValidLength(h.field, true), ValidLength(h.value, false);
    if f < |h.field| then Overwritten(b, base, h.field[..f])
    else if v < |h.value| then Overwritten(b, base, h.field + FIELD_SEPARATOR + h.value[..v])
    else Overwritten(b, base, h.field + FIELD_SEPARATOR + h.value + END_INDICATOR)
  }

  lemma OverwrittenTwice(b: bytes, dest: nat, t: bytes, u: bytes)
    requires dest + |t| + |u| <= |b|
    ensures Overwritten(Overwritten(b, dest, t), dest + |t|, u) == Overwritten(b, dest, t + u)
  {
  }

  /** HTTPRequestHeaders_t */
  class HTTPRequestHeaders {
    const buffer: array<byte>
    var headersLen: nat

    constructor (buffer: array<byte>)
      ensures this.buffer == buffer && headersLen == 0
    {
      this.buffer := buffer;
      headersLen := 0;
    }

    ghost predicate Valid()
      reads this
    {
      headersLen <= buffer.Length
    }

    ghost function Contents(): bytes
      requires Valid()
      reads this, buffer
    {
      buffer[..headersLen]
    }

    /** The header line and the end indicator are written at base, or as much of it as is valid. */
    method WriteHeader(base: nat, h: Header) returns (ok: bool)
      requires base + |h.field| + 2 + |h.value| + 4 <= buffer.Length
      modifies buffer
      ensures ok <==> IsText(h.field, true) && IsText(h.value, false)
      ensures buffer[..] == Attempt(old(buffer[..]), base, h)
    {
      hide ValidLength, Overwritten, IsInvalid;
      ghost var b := buffer[..];
      assert h.field[..|h.field|] == h.field && h.value[..|h.value|] == h.value;
      ok := HttpHeaderStrncpy(buffer, base, h.field, true);
      if !ok {
        return;
      }
      Copy(buffer, base + |h.field|, FIELD_SEPARATOR);
      OverwrittenTwice(b, base, h.field, FIELD_SEPARATOR);
      ok := HttpHeaderStrncpy(buffer, base + |h.field| + 2, h.value, false);
      OverwrittenTwice(b, base, h.field + FIELD_SEPARATOR, h.value[..ValidLength(h.value, false)]);
      if ok {
        Copy(buffer, base + |h.field| + 2 + |h.value|, END_INDICATOR);
        OverwrittenTwice(b, base, h.field + FIELD_SEPARATOR + h.value, END_INDICATOR);
      }
    }

    /** HTTPClient_AddHeader. Too little memory changes nothing; an invalid character keeps the length, and
        keeps the contents exactly if there was no empty line to write over or if nothing was written. */
    method AddHeader(h: Header) returns (status: Status)
      modifies this`headersLen, buffer
      ensures status == HTTPInvalidParameter <==> h.field == [] || h.value == [] || old(headersLen) > buffer.Length
      ensures status == HTTPInvalidParameter ==> headersLen == old(headersLen) && buffer[..] == old(buffer[..])
      ensures status != HTTPInvalidParameter ==>
                && old(headersLen) <= buffer.Length && Valid()
                && var base := Backtrack(old(Contents()));
                   var need := base + |h.field| + 2 + |h.value| + 4;
                   && (status == HTTPInsufficientMemory <==> need > buffer.Length)
                   && (status == HTTPSuccess <==> need <= buffer.Length && IsHeader(h))
                   && (status == HTTPSecurityAlertInvalidCharacter <==> need <= buffer.Length && !IsHeader(h))
                   && (status == HTTPInsufficientMemory ==>
                     headersLen == old(headersLen) && buffer[..] == old(buffer[..]))
                   && (status == HTTPSuccess ==> Contents() == WithHeader(old(Contents()), h))
                   && (status == HTTPSecurityAlertInvalidCharacter ==>
                         && headersLen == old(headersLen)
                         && (Contents() == old(Contents()) <==>
                           base == old(headersLen) || ValidLength(h.field, true) == 0))
    {
      hide ValidLength, Overwritten, IsInvalid, WithHeader, Attempt;
      if h.field == [] || h.value == [] || headersLen > buffer.Length {
        return HTTPInvalidParameter;
      }
      ghost var b := buffer[..];
      assert b[..headersLen] == Contents();
      var backtrackHeaderLen := headersLen;
      if EndsWith(buffer[..headersLen], END_INDICATOR) {
        backtrackHeaderLen := headersLen - 2;
      }
      var toAddLen := |h.field| + 2 + |h.value| + 2 + 2;
      if backtrackHeaderLen + toAddLen > buffer.Length {
        return HTTPInsufficientMemory;
      }
      var ok := WriteHeader(backtrackHeaderLen, h);
      if ok {
        AttemptSucceeds(b, headersLen, h);
        headersLen := backtrackHeaderLen + toAddLen;
        assert buffer[..headersLen] == buffer[..][..headersLen];
        status := HTTPSuccess;
      } else {
        AttemptFails(b, headersLen, h);
        assert buffer[..headersLen] == buffer[..][..headersLen];
        status := HTTPSecurityAlertInvalidCharacter;
      }
    }

    /** writeRequestLine, in an empty buffer. */
    method WriteRequestLine(verb: bytes, path: bytes) returns (status: Status)
      requires headersLen == 0
      modifies this`headersLen, buffer
      ensures status == HTTPSuccess || status == HTTPInsufficientMemory
      ensures status == HTTPSuccess <==> |RequestLine(verb, path)| <= buffer.Length
      ensures status == HTTPSuccess ==> Valid() && Contents() == RequestLine(verb, path)
    {
      hide Overwritten;
      ghost var b := buffer[..];
      var toAddLen := |verb| + 1 + 1 + |PROTOCOL_VERSION| + 2 + (if path == [] then |EMPTY_PATH| else |path|);
      if toAddLen + headersLen > buffer.Length {
        return HTTPInsufficientMemory;
      }
      var p := 0;
      NoneYet(b, 0);
      Copy(buffer, p, verb);
      OverwrittenTwice(b, 0, [], verb);
      p := p + |verb|;
      Copy(buffer, p, [SPACE]);
      OverwrittenTwice(b, 0, verb, [SPACE]);
      p := p + 1;
      var target := if path == [] then EMPTY_PATH else path;
      Copy(buffer, p, target);
      OverwrittenTwice(b, 0, verb + [SPACE], target);
      p := p + |target|;
      Copy(buffer, p, [SPACE]);
      OverwrittenTwice(b, 0, verb + [SPACE] + target, [SPACE]);
      p := p + 1;
      Copy(buffer, p, PROTOCOL_VERSION);
      OverwrittenTwice(b, 0, verb + [SPACE] + target + [SPACE], PROTOCOL_VERSION);
      p := p + |PROTOCOL_VERSION|;
      Copy(buffer, p, CRLF);
      OverwrittenTwice(b, 0, RequestText(verb, path), CRLF);
      headersLen := toAddLen;
      OverwrittenPrefix(b, RequestLine(verb, path));
      assert buffer[..headersLen] == buffer[..][..headersLen];
      status := HTTPSuccess;
    }

    /** HTTPClient_InitializeRequestHeaders, with the two lengths that are checked: it succeeds exactly if
        the whole block fits and the host is a valid value, and then the buffer holds that block. */
    method Initialize(verb: bytes, path: bytes, host: bytes, keepAlive: bool) returns (status: Status)
      modifies this`headersLen, buffer
      ensures status == HTTPInvalidParameter <==> verb == [] || host == []
      ensures status == HTTPInvalidParameter ==> headersLen == old(headersLen) && buffer[..] == old(buffer[..])
      ensures status != HTTPInvalidParameter ==>
                var block := Block(RequestLine(verb, path), FirstHeaders(host, keepAlive));
                && (status == HTTPSuccess <==> |block| <= buffer.Length && IsText(host, false))
                && (status == HTTPSuccess ==> Valid() && Contents() == block)
    {
      hide RequestLine, IsText, WithHeader, Block, FirstHeaders;
      if verb == [] || host == [] {
        return HTTPInvalidParameter;
      }
      InitialBlocks(verb, path, host);
      headersLen := 0;
      status := WriteRequestLine(verb, path);
      if status != HTTPSuccess {
        return;
      }
      status := AddHeader(Header(USER_AGENT_FIELD, USER_AGENT_VALUE));
      if status != HTTPSuccess {
        return;
      }
      status := AddHeader(Header(HOST_FIELD, host));
      if status != HTTPSuccess {
        return;
      }
      if keepAlive {
        status := AddHeader(Header(CONNECTION_FIELD, KEEP_ALIVE_VALUE));
      }
    }
  }

  const USER_AGENT_FIELD: bytes := [85, 115, 101, 114, 45, 65, 103, 101, 110, 116]
  const USER_AGENT_VALUE: bytes := [109, 121, 45, 112, 108, 97, 116, 102, 111, 114, 109, 45, 110, 97, 109, 101]
  const HOST_FIELD: bytes := [72, 111, 115, 116]
  const CONNECTION_FIELD: bytes := [67, 111, 110, 110, 101, 99, 116, 105, 111, 110]
  const KEEP_ALIVE_VALUE: bytes := [107, 101, 101, 112, 45, 97, 108, 105, 118, 101]

  /** The headers that every request starts with. */
  function FirstHeaders(host: bytes, keepAlive: bool): seq<Header> {
    [Header(USER_AGENT_FIELD, USER_AGENT_VALUE), Header(HOST_FIELD, host)]
    + (if keepAlive then [Header(CONNECTION_FIELD, KEEP_ALIVE_VALUE)] else [])
  }

  /** The block after each of the first headers, and how much room each needs. */
  lemma InitialBlocks(verb: bytes, path: bytes, host: bytes)
    requires host != []
    ensures var line := RequestLine(verb, path);
            var agent := Header(USER_AGENT_FIELD, USER_AGENT_VALUE);
            var named, connection := Header(HOST_FIELD, host), Header(CONNECTION_FIELD, KEEP_ALIVE_VALUE);
            var b1, b2 := WithHeader(line, agent), Block(line, FirstHeaders(host, false));
            && IsHeader(agent) && IsHeader(connection) && (IsHeader(named) <==> IsText(host, false))
            && WithHeader(b1, named) == b2
            && WithHeader(b2, connection) == Block(line, FirstHeaders(host, true))
            && |line| < |b1| == Backtrack(line) + |agent.field| + 2 + |agent.value| + 4
            && |b1| < |b2| == Backtrack(b1) + |named.field| + 2 + |host| + 4
            && |b2| < |WithHeader(b2, connection)| == Backtrack(b2) + |connection.field| + 2 + |connection.value| + 4
  {
    var line := RequestLine(verb, path);
    var agent := Header(USER_AGENT_FIELD, USER_AGENT_VALUE);
    var named, connection := Header(HOST_FIELD, host), Header(CONNECTION_FIELD, KEEP_ALIVE_VALUE);
    hide Block, RequestLine, FirstHeaders, IsHeader, IsText, WithHeader, Backtrack, USER_AGENT_FIELD, USER_AGENT_VALUE,
             HOST_FIELD,
         CONNECTION_FIELD, KEEP_ALIVE_VALUE;
    FixedHeaders(host);
    InitialContents(verb, path, agent, named, connection, host);
    WithLength(line, agent);
    WithLength(WithHeader(line, agent), named);
    WithLength(Block(line, FirstHeaders(host, false)), connection);
  }

  lemma InitialContents(verb: bytes, path: bytes, agent: Header, named: Header, connection: Header, host: bytes)
    requires agent == Header(USER_AGENT_FIELD, USER_AGENT_VALUE) && named == Header(HOST_FIELD, host)
    requires connection == Header(CONNECTION_FIELD, KEEP_ALIVE_VALUE)
    ensures var line := RequestLine(verb, path);
            && WithHeader(WithHeader(line, agent), named) == Block(line, FirstHeaders(host, false))
            && WithHeader(Block(line, FirstHeaders(host, false)), connection) == Block(line, FirstHeaders(host, true))
  {
    hide RequestLine, WithHeader, USER_AGENT_FIELD, USER_AGENT_VALUE, HOST_FIELD, CONNECTION_FIELD, KEEP_ALIVE_VALUE;
    var line := RequestLine(verb, path);
    assert Block(line, []) == line;
    hide Block;
    BlockGrows(verb, path, [], agent);
    assert [] + [agent] == [agent];
    BlockGrows(verb, path, [agent], named);
    assert [agent] + [named] == FirstHeaders(host, false);
    BlockGrows(verb, path, FirstHeaders(host, false), connection);
    assert FirstHeaders(host, false) + [connection] == FirstHeaders(host, true);
  }

  lemma PlainText(t: bytes, isField: bool)
    requires CR !in t && LF !in t && COLON !in t
    ensures IsText(t, isField)
  {
    var n := ValidLength(t, isField);
    assert forall k | 0 <= k < |t| :: t[k] in t;
    hide ValidLength;
  }

  lemma FixedHeaders(host: bytes)
    requires host != []
    ensures IsHeader(Header(USER_AGENT_FIELD, USER_AGENT_VALUE)) && IsHeader(Header(CONNECTION_FIELD, KEEP_ALIVE_VALUE))
    ensures IsHeader(Header(HOST_FIELD, host)) <==> IsText(host, false)
    ensures |USER_AGENT_FIELD| > 0 && |USER_AGENT_VALUE| > 0 && |HOST_FIELD| > 0 && |CONNECTION_FIELD| > 0
            && |KEEP_ALIVE_VALUE| > 0
  {
    hide ValidLength;
    PlainText(USER_AGENT_FIELD, true);
    PlainText(USER_AGENT_VALUE, false);
    PlainText(HOST_FIELD, true);
    PlainText(CONNECTION_FIELD, true);
    PlainText(KEEP_ALIVE_VALUE, false);
  }

  lemma WithLength(b: bytes, h: Header)
    requires h.field != [] && h.value != []
    ensures |b| < |WithHeader(b, h)| == Backtrack(b) + |h.field| + 2 + |h.value| + 4
  {
  }

  /** The block after a run of additions. */
  function WithAll(b: bytes, hs: seq<Header>): bytes
    decreases |hs|
  {
    if hs == [] then b else WithAll(WithHeader(b, hs[0]), hs[1..])
  }

  /** Any run of additions to a block appends all its headers, in order. */
  lemma {:induction false} ManyHeaders(verb: bytes, path: bytes, first: seq<Header>, hs: seq<Header>)
    ensures WithAll(Block(RequestLine(verb, path), first), hs) == Block(RequestLine(verb, path), first + hs)
    decreases |hs|
  {
    hide RequestLine, Block, WithHeader;
    if hs == [] {
      assert first + hs == first;
    } else {
      BlockGrows(verb, path, first, hs[0]);
      ManyHeaders(verb, path, first + [hs[0]], hs[1..]);
      assert first + [hs[0]] + hs[1..] == first + hs;
    }
  }

  lemma OverwrittenPrefix(b: bytes, t: bytes)
    requires |t| <= |b|
    ensures Overwritten(b, 0, t)[..|t|] == t
  {
  }

  lemma AttemptSucceeds(b: bytes, n: nat, h: Header)
    requires n <= |b| && IsText(h.field, true) && IsText(h.value, false)
    requires Backtrack(b[..n]) + |h.field| + 2 + |h.value| + 4 <= |b|
    ensures var base := Backtrack(b[..n]);
            Attempt(b, base, h)[..base + |h.field| + 2 + |h.value| + 4] == WithHeader(b[..n], h)
  {
    hide EndsWith, ValidLength;
    var base, t := Backtrack(b[..n]), h.field + FIELD_SEPARATOR + h.value + END_INDICATOR;
    assert b[..n][..base] == b[..base];
    assert Overwritten(b, base, t)[..base + |t|] == b[..base] + t;
  }

  /** A header that is refused leaves the block as it was if nothing is written over its empty line. */
  lemma AttemptFails(b: bytes, n: nat, h: Header)
    requires n <= |b| && h.field != [] && !(IsText(h.field, true) && IsText(h.value, false))
    requires Backtrack(b[..n]) + |h.field| + 2 + |h.value| + 4 <= |b|
    ensures var base := Backtrack(b[..n]);
            Attempt(b, base, h)[..n] == b[..n] <==> base == n || ValidLength(h.field, true) == 0
  {
    var base, f := Backtrack(b[..n]), ValidLength(h.field, true);
    var t := if f < |h.field| then h.field[..f] else h.field + FIELD_SEPARATOR + h.value[..ValidLength(h.value, false)];
    assert Attempt(b, base, h) == Overwritten(b, base, t);
    if base == n {
      assert Overwritten(b, base, t)[..n] == b[..n];
    } else if f == 0 {
      NoneYet(b, base);
    } else {
      assert t[0] == h.field[0] && h.field[0] != CR;
      assert Overwritten(b, base, t)[..n][base] == t[0];
      assert b[..n][base] == END_INDICATOR[2];
    }
  }

  /** A header with a valid field and an invalid value, refused where the buffer holds a block with headers,
      changes that block. */
  lemma RefusedHeader(b: bytes, n: nat, line: bytes, hs: seq<Header>, h: Header)
    requires n <= |b| && b[..n] == Block(line, hs) && hs != []
    requires h.field != [] && IsText(h.field, true) && !IsText(h.value, false)
    requires Backtrack(b[..n]) + |h.field| + 2 + |h.value| + 4 <= |b|
    ensures Attempt(b, Backtrack(b[..n]), h)[..n] != b[..n]
  {
    AttemptFails(b, n, h);
    LinesEnd(hs);
    BlockCut(line, HeaderLines(hs));
    hide Attempt, HeaderLines, ValidLength, IsText;
    assert ValidLength(h.field, true) > 0 by { TextLength(h.field); }
  }

  lemma TextLength(t: bytes)
    requires IsText(t, true)
    ensures ValidLength(t, true) == |t|
  {
  }

  /** For instance the header X with a carriage return as value, right after the first headers of GET. */
  lemma RefusedExample(b: bytes, n: nat)
    requires var host: bytes := [104];
             n <= |b| && b[..n] == Block(RequestLine([71, 69, 84], []), FirstHeaders(host, false))
    requires n + 6 <= |b|
    ensures var h := Header([88], [CR]);
            !IsHeader(h) && Attempt(b, Backtrack(b[..n]), h)[..n] != b[..n]
  {
    var h := Header([88], [CR]);
    assert ValidLength([], true) == 0;
    assert [88][1..] == [] && IsText(h.field, true);
    assert ValidLength(h.value, false) == 0;
    var hs := FirstHeaders([104], false);
    assert hs != [];
    hide Block, FirstHeaders, Attempt, ValidLength, RequestLine;
    RefusedHeader(b, n, RequestLine([71, 69, 84], []), hs, h);
  }
}
