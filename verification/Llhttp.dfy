/** The response half of the byte automaton in source/corehttp/llhttp.c (loose mode, no
    lenient flags) as a step on one byte, and the body-framing decisions of
    source/corehttp/http.c. A node is a label where the automaton can stop for input. */
module Llhttp {
  import opened Bytes

  const CR: byte := 13
  const LF: byte := 10
  const SP: byte := 32
  const TAB: byte := 9
  const MAX_UINT64: nat := 0xFFFF_FFFF_FFFF_FFFF

  /** Nodes inside the status line. */
  datatype LineNode =
    | Start | ResHttpMajor | ResHttpDot | ResHttpMinor | ResHttpEnd | ResStatusCode | ResStatusCodeOtherwise
    | ResStatusStart | SpanStartStatus | ResStatus | ResLineAlmostDone

  /** Nodes inside the name of a header. */
  datatype FieldNode =
    | HeaderFieldStart | SpanStartHeaderField | HeaderField | HeaderField2 | HeaderFieldColon
    | HeaderFieldGeneral | HeaderFieldGeneralOtherwise

  /** Nodes inside the surroundings of a header value. */
  datatype EdgeNode =
    | HeaderValueDiscardWs | HeaderValueDiscardWsAlmostDone | HeaderValueDiscardLws | SpanStartHeaderValue
    | SpanStartHeaderValue1 | HeaderValueOtherwise | HeaderValueAlmostDone | HeaderValueLws

  /** Nodes inside a header value. */
  datatype ValueNode =
    | HeaderValue | HeaderValueConnection | HeaderValueConnectionWs | HeaderValueConnectionToken
    | HeaderValueContentLength | HeaderValueContentLengthWs | HeaderValueTeChunkedLast | HeaderValueTeTokenOws
    | HeaderValueTeToken

  /** Nodes inside the text of a known word. */
  datatype MatchNode =
    | StartRes | HeaderField1 | HeaderField3 | HeaderField4 | HeaderField5 | HeaderField6 | HeaderField7
    | HeaderValueConnection1 | HeaderValueConnection2 | HeaderValueConnection3 | HeaderValueTeChunked

  /** Nodes inside the end of the headers, and the body. */
  datatype BodyNode =
    | HeadersAlmostDone | ChunkSizeDigit | ChunkSize | ChunkSizeOtherwise | ChunkParameters
    | ChunkSizeAlmostDone | SpanStartBody | ConsumeContentLength | ChunkDataAlmostDone | ChunkDataAlmostDoneSkip
    | SpanStartBody1 | ConsumeContentLength1 | SpanStartBody2 | Eof | Closed | Failed

  datatype Node =
    | InLine(line: LineNode) | InField(field: FieldNode) | AtEdge(edge: EdgeNode) | InValue(value: ValueNode)
    | InMatch(word: MatchNode) | InBody(body: BodyNode)

  datatype Flags = Flags(keepAlive: bool, close: bool, connectionUpgrade: bool, chunked: bool, upgrade: bool,
                         contentLength: bool, skipBody: bool, trailing: bool, transferEncoding: bool)

  const NO_FLAGS := Flags(false, false, false, false, false, false, false, false, false)

  /** The fields of llhttp__internal_t that a response parser uses; head tells whether
      on_headers_complete asks for the body to be skipped. */
  datatype State = State(node: Node, index: nat, contentLength: nat, flags: Flags, headerState: nat,
                         statusCode: nat, httpMajor: nat, httpMinor: nat, finish: nat, upgrade: bool,
                         error: nat, head: bool)

  function Init(head: bool): State {
    State(InLine(Start), 0, 0, NO_FLAGS, 0, 0, 0, 0, 0, false, 0, head)
  }

  const HPE_LF_EXPECTED := 3
  const HPE_UNEXPECTED_CONTENT_LENGTH := 4
  const HPE_INVALID_CONSTANT := 8
  const HPE_INVALID_VERSION := 9
  const HPE_INVALID_HEADER_TOKEN := 10
  const HPE_INVALID_CONTENT_LENGTH := 11
  const HPE_INVALID_CHUNK_SIZE := 12
  const HPE_INVALID_STATUS := 13
  const HPE_PAUSED_UPGRADE := 22

  const FINISH_SAFE := 0
  const FINISH_SAFE_WITH_CB := 1
  const FINISH_UNSAFE := 2

  // ---- spans and events ----

  datatype Kind = Status(code: nat) | Field | Value | Body

  /** What the callbacks learn, byte by byte: End(k, d) closes a span d bytes after the
      byte being fed, and is the only trace of an empty span. */
  datatype Item =
    | Begin
    | Data(kind: Kind)
    | End(kind: Kind, after: nat)
    | HeadersDone(contentLength: nat, flags: Flags)
    | Done

  /** The span that is open at a node. */
  function SpanOf(s: State): Option<Kind> {
    match s.node
    case InLine(n) => if n == ResStatus then Some(Status(s.statusCode)) else None
    case InField(n) => if n == HeaderFieldStart || n == SpanStartHeaderField then None else Some(Field)
    case AtEdge(n) => if n == HeaderValueOtherwise then Some(Value) else None
    case InValue(_) => Some(Value)
    case InMatch(n) =>
      if n == StartRes then None else if IsValueWord(n) then Some(Value) else Some(Field)
    case InBody(n) => if n == ConsumeContentLength || n == ConsumeContentLength1 || n == Eof then Some(Body) else None
  }

  /** The words that are looked for inside a header value. */
  predicate IsValueWord(n: MatchNode) {
    n == HeaderValueConnection1 || n == HeaderValueConnection2 || n == HeaderValueConnection3
    || n == HeaderValueTeChunked
  }

  /** The result of one dispatch: the new state, whether the byte was consumed, and the items. */
  datatype Out = Out(s: State, eaten: bool, items: seq<Item>)

  function Eat(s: State, n: Node): Out {
    Out(s.(node := n), true, match SpanOf(s) case None => [] case Some(k) => [Data(k)])
  }

  function Go(s: State, n: Node): Out {
    Out(s.(node := n), false, [])
  }

  function Fail(s: State, code: nat): Out {
    Out(s.(node := InBody(Failed), error := code), false, [])
  }

  // ---- partial matches ----

  const ON: bytes := [111, 110]
  const ECTION: bytes := [101, 99, 116, 105, 111, 110]
  const LOSE: bytes := [108, 111, 115, 101]
  const EEP_ALIVE: bytes := [101, 101, 112, 45, 97, 108, 105, 118, 101]
  const PGRADE: bytes := [112, 103, 114, 97, 100, 101]
  const CHUNKED: bytes := [99, 104, 117, 110, 107, 101, 100]
  const ENT_LENGTH: bytes := [101, 110, 116, 45, 108, 101, 110, 103, 116, 104]
  const ROXY_CONNECTION: bytes := [114, 111, 120, 121, 45, 99, 111, 110, 110, 101, 99, 116, 105, 111, 110]
  const RANSFER_ENCODING: bytes := [114, 97, 110, 115, 102, 101, 114, 45, 101, 110, 99, 111, 100, 105, 110, 103]
  const HTTP_SLASH: bytes := [72, 84, 84, 80, 47]

  function ToLower(c: byte): byte {
    if 65 <= c <= 90 then c + 32 else c
  }

  function ToLowerUnsafe(c: byte): byte {
    if c / 32 % 2 == 0 then c + 32 else c
  }

  datatype Folding = Exact | Lower | LowerUnsafe

  function Folded(f: Folding, c: byte): byte {
    match f
    case Exact => c
    case Lower => ToLower(c)
    case LowerUnsafe => ToLowerUnsafe(c)
  }

  /** The rest of the word a node matches. */
  function Sequence(n: MatchNode): bytes {
    match n
    case StartRes => HTTP_SLASH
    case HeaderField1 => ON
    case HeaderField3 => ECTION
    case HeaderField4 => ENT_LENGTH
    case HeaderField5 => ROXY_CONNECTION
    case HeaderField6 => RANSFER_ENCODING
    case HeaderField7 => PGRADE
    case HeaderValueConnection1 => LOSE
    case HeaderValueConnection2 => EEP_ALIVE
    case HeaderValueConnection3 => PGRADE
    case HeaderValueTeChunked => CHUNKED
  }

  function FoldingOf(n: MatchNode): Folding {
    match n
    case StartRes => Exact
    case HeaderValueTeChunked => LowerUnsafe
    case _ => Lower
  }

  /** Where a completed match leads, before the last byte is consumed. */
  function Matched(s: State, n: MatchNode): State {
    match n
    case StartRes => s.(node := InLine(ResHttpMajor))
    case HeaderField1 => s.(node := InField(HeaderField2))
    case HeaderField3 => s.(node := InField(HeaderFieldColon), headerState := 1)
    case HeaderField4 => s.(node := InField(HeaderFieldColon), headerState := 2)
    case HeaderField5 => s.(node := InField(HeaderFieldColon), headerState := 1)
    case HeaderField6 => s.(node := InField(HeaderFieldColon), headerState := 3)
    case HeaderField7 => s.(node := InField(HeaderFieldColon), headerState := 4)
    case HeaderValueConnection1 => s.(node := InValue(HeaderValueConnectionWs), headerState := 6)
    case HeaderValueConnection2 => s.(node := InValue(HeaderValueConnectionWs), headerState := 5)
    case HeaderValueConnection3 => s.(node := InValue(HeaderValueConnectionWs), headerState := 7)
    case HeaderValueTeChunked => s.(node := InValue(HeaderValueTeChunkedLast))
  }

  /** Where a mismatch leads; the mismatching byte is looked at again there. */
  function Mismatched(s: State, n: MatchNode): Out {
    if n == StartRes then Fail(s, HPE_INVALID_CONSTANT)
    else if n == HeaderValueTeChunked then Go(s, InValue(HeaderValueTeToken))
    else if IsValueWord(n) then Go(s, InValue(HeaderValueConnectionToken))
    else Go(s.(headerState := 0), InField(HeaderFieldGeneral))
  }

  function StepMatch(s: State, n: MatchNode, c: byte): Out
    requires s.index < |Sequence(n)|
  {
    if Folded(FoldingOf(n), c) == Sequence(n)[s.index] then
      if s.index + 1 == |Sequence(n)| then Eat(s, s.node).(s := Matched(s.(index := 0), n))
      else Eat(s.(index := s.index + 1), s.node)
    else Mismatched(s.(index := 0), n)
  }

  // ---- numerals ----

  datatype Accumulated = Accumulated(overflow: bool, value: nat)

  /** llhttp__internal__c_mul_add_content_length and _1, for base 16 and 10. */
  function MulAdd(value: nat, base: nat, digit: nat): (r: Accumulated)
    requires base > 0 && digit < base
  {
    if value > MAX_UINT64 / base then Accumulated(true, value)
    else if value * base > MAX_UINT64 - digit then Accumulated(true, value * base)
    else Accumulated(false, value * base + digit)
  }

  predicate IsDecimal(c: byte) { 48 <= c <= 57 }

  /** The value of a hexadecimal digit, or 16. */
  function HexDigit(c: byte): (d: nat)
    ensures d <= 16
  {
    if 48 <= c <= 57 then c - 48 else if 65 <= c <= 70 then c - 55 else if 97 <= c <= 102 then c - 87 else 16
  }

  // ---- message boundaries (http.c) ----

  predicate MessageNeedsEof(s: State) {
    if s.statusCode / 100 == 1 || s.statusCode == 204 || s.statusCode == 304 || s.flags.skipBody then false
    else if s.flags.transferEncoding && !s.flags.chunked then true
    else if s.flags.chunked || s.flags.contentLength then false
    else true
  }

  predicate ShouldKeepAlive(s: State) {
    if s.httpMajor > 0 && s.httpMinor > 0 then !s.flags.close && !MessageNeedsEof(s)
    else s.flags.keepAlive && !MessageNeedsEof(s)
  }

  /** on_message_complete has run: reset the flags and await the next message or nothing. */
  function AfterMessageComplete(s: State): State {
    s.(node := if ShouldKeepAlive(s) then InLine(Start) else InBody(Closed), finish := FINISH_SAFE, flags := NO_FLAGS)
  }

  function PauseUpgrade(s: State): State {
    s.(node := InBody(Failed), error := HPE_PAUSED_UPGRADE)
  }

  /** on_message_complete after a body or a last chunk. */
  function MessageComplete(s: State): State {
    if s.upgrade then PauseUpgrade(s) else AfterMessageComplete(s)
  }

  datatype Framing = NoBody | Upgraded | Chunks | Identity | UntilEof

  /** llhttp__after_headers_complete, for a response. */
  function AfterHeadersComplete(s: State): Framing {
    var hasBody := s.flags.chunked || s.contentLength > 0;
    if s.upgrade && (s.flags.skipBody || !hasBody) then Upgraded
    else if s.flags.skipBody then NoBody
    else if s.flags.chunked then Chunks
    else if s.flags.transferEncoding then UntilEof
    else if !s.flags.contentLength then (if !MessageNeedsEof(s) then NoBody else UntilEof)
    else if s.contentLength == 0 then NoBody
    else Identity
  }

  function Framed(s: State): (State, seq<Item>) {
    match AfterHeadersComplete(s)
    case NoBody => (AfterMessageComplete(s), [Done])
    case Upgraded => (PauseUpgrade(s), [Done])
    case Chunks => (s.(node := InBody(ChunkSizeDigit), contentLength := 0), [])
    case Identity => (s.(node := InBody(SpanStartBody1)), [])
    case UntilEof => (s.(node := InBody(SpanStartBody2), finish := FINISH_SAFE_WITH_CB), [])
  }

  /** The blank line that ends the headers, or the trailer of a chunked body. */
  function HeadersComplete(s: State): (State, seq<Item>) {
    if s.flags.trailing then (MessageComplete(s), [Done])
    else if s.flags.transferEncoding && s.flags.contentLength then
      (s.(node := InBody(Failed), error := HPE_UNEXPECTED_CONTENT_LENGTH), [])
    else
      var u := s.(upgrade := s.flags.upgrade && s.flags.connectionUpgrade && s.statusCode == 101);
      var t := if s.head then u.(flags := u.flags.(skipBody := true)) else u;
      var (f, items) := Framed(t);
      (f, [HeadersDone(s.contentLength, s.flags)] + items)
  }

  // ---- the dispatch of one byte, by group of nodes ----

  function StepLine(s: State, n: LineNode, c: byte): Out {
    match n
    case Start =>
      if c == LF || c == CR then Eat(s, InLine(Start))
      else Out(s.(node := InMatch(StartRes), finish := FINISH_UNSAFE), false, [Begin])
    case ResHttpMajor =>
      if IsDecimal(c) then Eat(s.(httpMajor := c - 48), InLine(ResHttpDot)) else Fail(s, HPE_INVALID_VERSION)
    case ResHttpDot => if c == 46 then Eat(s, InLine(ResHttpMinor)) else Fail(s, HPE_INVALID_VERSION)
    case ResHttpMinor =>
      if IsDecimal(c) then Eat(s.(httpMinor := c - 48), InLine(ResHttpEnd)) else Fail(s, HPE_INVALID_VERSION)
    case ResHttpEnd => if c == SP then Eat(s.(statusCode := 0), InLine(ResStatusCode)) else Fail(s, HPE_INVALID_VERSION)
    case ResStatusCode =>
      if IsDecimal(c) then
        var code := s.statusCode * 10 + (c - 48);
        if code > 999 then Fail(s.(statusCode := code), HPE_INVALID_STATUS)
        else Eat(s.(statusCode := code), InLine(ResStatusCode))
      else Go(s, InLine(ResStatusCodeOtherwise))
    case ResStatusCodeOtherwise =>
      if c == LF || c == CR then Go(s, InLine(ResStatusStart))
      else if c == SP then Eat(s, InLine(ResStatusStart))
      else Fail(s, HPE_INVALID_STATUS)
    case ResStatusStart =>
      if c == LF then Eat(s, InField(HeaderFieldStart))
      else if c == CR then Eat(s, InLine(ResLineAlmostDone))
      else Go(s, InLine(SpanStartStatus))
    case SpanStartStatus => Go(s, InLine(ResStatus))
    case ResStatus =>
      if c == LF then Out(s.(node := InField(HeaderFieldStart)), true, [End(Status(s.statusCode), 0)])
      else if c == CR then Out(s.(node := InLine(ResLineAlmostDone)), true, [End(Status(s.statusCode), 0)])
      else Eat(s, InLine(ResStatus))
    case ResLineAlmostDone => Eat(s, InField(HeaderFieldStart))
  }

  predicate IsToken(c: byte) {
    || c == 32 || c == 33 || 35 <= c <= 39 || c == 42 || c == 43 || c == 45 || c == 46
    || 48 <= c <= 57 || 65 <= c <= 90 || c == 94 || c == 95 || 96 <= c <= 122 || c == 124 || c == 126
  }

  function ColonFound(s: State): Out {
    Out(s.(node := AtEdge(HeaderValueDiscardWs)), true, [End(Field, 0)])
  }

  function StepField(s: State, n: FieldNode, c: byte): Out {
    match n
    case HeaderFieldStart =>
      if c == LF then Go(s, InBody(HeadersAlmostDone))
      else if c == CR then Eat(s, InBody(HeadersAlmostDone))
      else Go(s, InField(SpanStartHeaderField))
    case SpanStartHeaderField => Go(s, InField(HeaderField))
    case HeaderField =>
      var l := ToLower(c);
      if l == 99 then Eat(s, InMatch(HeaderField1))
      else if l == 112 then Eat(s, InMatch(HeaderField5))
      else if l == 116 then Eat(s, InMatch(HeaderField6))
      else if l == 117 then Eat(s, InMatch(HeaderField7))
      else Go(s.(headerState := 0), InField(HeaderFieldGeneral))
    case HeaderField2 =>
      var l := ToLower(c);
      if l == 110 then Eat(s, InMatch(HeaderField3))
      else if l == 116 then Eat(s, InMatch(HeaderField4))
      else Go(s.(headerState := 0), InField(HeaderFieldGeneral))
    case HeaderFieldColon =>
      if c == SP then Eat(s, InField(HeaderFieldColon))
      else if c == 58 then ColonFound(s)
      else Go(s.(headerState := 0), InField(HeaderFieldGeneral))
    case HeaderFieldGeneral =>
      if IsToken(c) then Eat(s, InField(HeaderFieldGeneral)) else Go(s, InField(HeaderFieldGeneralOtherwise))
    case HeaderFieldGeneralOtherwise =>
      if c == 58 then ColonFound(s) else Fail(s, HPE_INVALID_HEADER_TOKEN)
  }

  predicate IsValueByte(c: byte) { c == TAB || (c >= 32 && c != 127) }

  /** The flag recorded by header_state at the end of a header value. */
  function WithStateFlag(s: State): State {
    if s.headerState == 5 then s.(flags := s.flags.(keepAlive := true), headerState := 1)
    else if s.headerState == 6 then s.(flags := s.flags.(close := true), headerState := 1)
    else if s.headerState == 7 then s.(flags := s.flags.(connectionUpgrade := true), headerState := 1)
    else if s.headerState == 8 then s.(flags := s.flags.(chunked := true))
    else s
  }

  /** The first byte of a value decides by header_state how the value is read. */
  function ValueBegun(s: State): Out {
    if s.headerState == 1 then Go(s, InValue(HeaderValueConnection))
    else if s.headerState == 2 then
      if s.flags.contentLength then Fail(s, HPE_UNEXPECTED_CONTENT_LENGTH) else Go(s, InValue(HeaderValueContentLength))
    else if s.headerState == 3 then
      Go(s.(flags := s.flags.(transferEncoding := true, chunked := false)), InMatch(HeaderValueTeChunked))
    else if s.headerState == 4 then
      Go(s.(flags := s.flags.(upgrade := true), headerState := 0), InValue(HeaderValue))
    else Go(s, InValue(HeaderValue))
  }

  function StepEdge(s: State, n: EdgeNode, c: byte): Out {
    match n
    case HeaderValueDiscardWs =>
      if c == TAB || c == SP then Eat(s, AtEdge(HeaderValueDiscardWs))
      else if c == LF then Eat(s, AtEdge(HeaderValueDiscardLws))
      else if c == CR then Eat(s, AtEdge(HeaderValueDiscardWsAlmostDone))
      else Go(s, AtEdge(SpanStartHeaderValue1))
    case HeaderValueDiscardWsAlmostDone => Eat(s, AtEdge(HeaderValueDiscardLws))
    case HeaderValueDiscardLws =>
      if c == TAB || c == SP then Eat(s, AtEdge(HeaderValueDiscardWs))
      else if s.headerState == 2 then Fail(s, HPE_INVALID_CONTENT_LENGTH)
      else Go(WithStateFlag(s), AtEdge(SpanStartHeaderValue))
    case SpanStartHeaderValue => Out(s.(node := InField(HeaderFieldStart)), false, [End(Value, 0)])
    case SpanStartHeaderValue1 => ValueBegun(s)
    case HeaderValueOtherwise =>
      if c == LF then Out(s.(node := AtEdge(HeaderValueAlmostDone)), false, [End(Value, 0)])
      else if c == CR then Out(s.(node := AtEdge(HeaderValueAlmostDone)), true, [End(Value, 0)])
      else Fail(s, HPE_INVALID_HEADER_TOKEN)
    case HeaderValueAlmostDone => if c == LF then Eat(s, AtEdge(HeaderValueLws)) else Fail(s, HPE_LF_EXPECTED)
    case HeaderValueLws =>
      if c == TAB || c == SP then Go(s, AtEdge(SpanStartHeaderValue1))
      else Go(WithStateFlag(s), InField(HeaderFieldStart))
  }

  function StepValue(s: State, n: ValueNode, c: byte): Out {
    match n
    case HeaderValue => if IsValueByte(c) then Eat(s, InValue(HeaderValue)) else Go(s, AtEdge(HeaderValueOtherwise))
    case HeaderValueConnection =>
      var l := ToLower(c);
      if l == TAB || l == SP then Eat(s, InValue(HeaderValueConnection))
      else if l == 99 then Eat(s, InMatch(HeaderValueConnection1))
      else if l == 107 then Eat(s, InMatch(HeaderValueConnection2))
      else if l == 117 then Eat(s, InMatch(HeaderValueConnection3))
      else Go(s, InValue(HeaderValueConnectionToken))
    case HeaderValueConnectionWs =>
      if c == LF || c == CR then Go(s, AtEdge(HeaderValueOtherwise))
      else if c == SP then Eat(s, InValue(HeaderValueConnectionWs))
      else if c == 44 then Eat(WithStateFlag(s), InValue(HeaderValueConnection))
      else Go(s.(headerState := 0), InValue(HeaderValueConnectionToken))
    case HeaderValueConnectionToken =>
      if c == 44 then Eat(s, InValue(HeaderValueConnection))
      else if IsValueByte(c) then Eat(s, InValue(HeaderValueConnectionToken))
      else Go(s, AtEdge(HeaderValueOtherwise))
    case HeaderValueContentLength =>
      if IsDecimal(c) then
        var r := MulAdd(s.contentLength, 10, c - 48);
        var t := s.(contentLength := r.value);
        if r.overflow then
          Out(t.(node := InBody(Failed), error := HPE_INVALID_CONTENT_LENGTH), false, [Data(Value), End(Value, 1)])
        else Eat(t, InValue(HeaderValueContentLength))
      else Go(s, InValue(HeaderValueContentLengthWs))
    case HeaderValueContentLengthWs =>
      if c == LF || c == CR then Go(s.(flags := s.flags.(contentLength := true)), AtEdge(HeaderValueOtherwise))
      else if c == SP then Eat(s, InValue(HeaderValueContentLengthWs))
      else Out(s.(node := InBody(Failed), error := HPE_INVALID_CONTENT_LENGTH), false, [End(Value, 0)])
    case HeaderValueTeChunkedLast =>
      if c == LF || c == CR then Go(s.(headerState := 8), AtEdge(HeaderValueOtherwise))
      else if c == SP then Eat(s, InValue(HeaderValueTeChunkedLast))
      else Go(s, InMatch(HeaderValueTeChunked))
    case HeaderValueTeTokenOws =>
      if c == TAB || c == SP then Eat(s, InValue(HeaderValueTeTokenOws)) else Go(s, InMatch(HeaderValueTeChunked))
    case HeaderValueTeToken =>
      if c == 44 then Eat(s, InValue(HeaderValueTeTokenOws))
      else if IsValueByte(c) then Eat(s, InValue(HeaderValueTeToken))
      else Go(s.(headerState := 0), InValue(HeaderValue))
  }

  function SizeDigit(s: State, d: nat): Out
    requires d < 16
  {
    var r := MulAdd(s.contentLength, 16, d);
    var t := s.(contentLength := r.value);
    if r.overflow then Fail(t, HPE_INVALID_CHUNK_SIZE) else Eat(t, InBody(ChunkSize))
  }

  /** The end of the span of a body or chunk, with the byte that completes it. */
  function BodyConsumed(s: State, n: BodyNode): Out {
    if n == ConsumeContentLength then
      Out(s.(node := InBody(ChunkDataAlmostDone), contentLength := 0), true, [Data(Body), End(Body, 1)])
    else
      Out(MessageComplete(s.(contentLength := 0)), true, [Data(Body), End(Body, 1), Done])
  }

  function StepBody(s: State, n: BodyNode, c: byte): Out {
    match n
    case HeadersAlmostDone =>
      var (t, items) := HeadersComplete(s);
      Out(t, true, items)
    case ChunkSizeDigit => if HexDigit(c) < 16 then SizeDigit(s, HexDigit(c)) else Fail(s, HPE_INVALID_CHUNK_SIZE)
    case ChunkSize => if HexDigit(c) < 16 then SizeDigit(s, HexDigit(c)) else Go(s, InBody(ChunkSizeOtherwise))
    case ChunkSizeOtherwise =>
      if c == CR then Eat(s, InBody(ChunkSizeAlmostDone))
      else if c == SP || c == 59 then Eat(s, InBody(ChunkParameters))
      else Fail(s, HPE_INVALID_CHUNK_SIZE)
    case ChunkParameters => if c == CR then Eat(s, InBody(ChunkSizeAlmostDone)) else Eat(s, InBody(ChunkParameters))
    case ChunkSizeAlmostDone =>
      if s.contentLength == 0 then Eat(s.(flags := s.flags.(trailing := true)), InField(HeaderFieldStart))
      else Eat(s, InBody(SpanStartBody))
    case SpanStartBody => Go(s, InBody(ConsumeContentLength))
    case SpanStartBody1 => Go(s, InBody(ConsumeContentLength1))
    case SpanStartBody2 => Go(s, InBody(Eof))
    case ConsumeContentLength | ConsumeContentLength1 =>
      if s.contentLength <= 1 then BodyConsumed(s, n) else Eat(s.(contentLength := s.contentLength - 1), s.node)
    case ChunkDataAlmostDone => Eat(s, InBody(ChunkDataAlmostDoneSkip))
    case ChunkDataAlmostDoneSkip => Eat(s.(contentLength := 0), InBody(ChunkSizeDigit))
    case _ => Eat(s, s.node)
  }

  /** What every reachable error-free state satisfies. */
  predicate Inv(s: State) {
    s.error == 0 ==>
      && s.node != InBody(Failed)
      && (if s.node.InMatch? then s.index < |Sequence(s.node.word)| else s.index == 0)
      && s.contentLength <= MAX_UINT64 && s.statusCode <= 999
      && (NeedsLength(s.node) ==> s.contentLength > 0)
  }

  /** The nodes that count down content_length. */
  predicate NeedsLength(n: Node) {
    n.InBody? && (n.body == SpanStartBody || n.body == SpanStartBody1 || n.body == ConsumeContentLength
                  || n.body == ConsumeContentLength1)
  }

  /** One dispatch on the byte c. */
  function Step(s: State, c: byte): Out
    requires Inv(s) && s.error == 0
  {
    match s.node
    case InLine(n) => StepLine(s, n, c)
    case InField(n) => StepField(s, n, c)
    case AtEdge(n) => StepEdge(s, n, c)
    case InValue(n) => StepValue(s, n, c)
    case InMatch(n) => StepMatch(s, n, c)
    case InBody(n) => StepBody(s, n, c)
  }

  /** Dispatches that do not consume their byte move to a smaller rank. */
  function Rank(n: Node): nat {
    match n
    case InLine(l) =>
      if l == ResStatusCode then 4 else if l == ResStatusCodeOtherwise then 3 else if l == ResStatusStart then 2
      else if l == SpanStartStatus || l == Start then 1 else 0
    case InField(f) =>
      if f == HeaderFieldStart then 6 else if f == SpanStartHeaderField then 5 else if f == HeaderField then 4
      else if f == HeaderFieldGeneral then 2 else if f == HeaderFieldGeneralOtherwise then 1 else 3
    case AtEdge(e) =>
      if e == HeaderValueDiscardLws then 8
      else if e == HeaderValueDiscardWs || e == HeaderValueLws || e == SpanStartHeaderValue then 7
      else if e == SpanStartHeaderValue1 then 6 else if e == HeaderValueOtherwise then 1 else 0
    case InValue(v) =>
      if v == HeaderValueTeChunkedLast || v == HeaderValueTeTokenOws then 5
      else if v == HeaderValueConnectionToken || v == HeaderValue || v == HeaderValueContentLengthWs then 2
      else 3
    case InMatch(w) => if w == StartRes then 0 else if w == HeaderValueTeChunked then 4 else 3
    case InBody(b) =>
      if b == SpanStartBody || b == SpanStartBody1 || b == SpanStartBody2 || b == ChunkSize then 1 else 0
  }

  /** The result of a dispatch keeps the invariant, and makes progress. */
  predicate Kept(s: State, o: Out) {
    Inv(o.s) && (!o.eaten && o.s.error == 0 ==> Rank(o.s.node) < Rank(s.node)) && o.s.head == s.head
  }

  lemma WordsNonEmpty(n: MatchNode)
    ensures |Sequence(n)| > 0
  {
  }

  lemma StepMatchKeeps(s: State, n: MatchNode, c: byte)
    requires Inv(s) && s.error == 0 && s.node == InMatch(n)
    ensures Kept(s, StepMatch(s, n, c))
  {
    hide Sequence, Folded, SpanOf, FoldingOf;
  }

  lemma StepLineKeeps(s: State, n: LineNode, c: byte)
    requires Inv(s) && s.error == 0 && s.node == InLine(n)
    ensures Kept(s, StepLine(s, n, c))
  {
    WordsNonEmpty(StartRes);
    hide Sequence, SpanOf;
  }

  /** The letters that lead into a known name. */
  lemma FieldWordKeeps(s: State, n: FieldNode, c: byte)
    requires Inv(s) && s.error == 0 && s.node == InField(n) && (n == HeaderField || n == HeaderField2)
    ensures Kept(s, StepField(s, n, c))
  {
    var t := StepField(s, n, c).s.node;
    if t.InMatch? { WordsNonEmpty(t.word); }
    hide Sequence, SpanOf, ToLower, IsToken;
  }

  lemma StepFieldKeeps(s: State, n: FieldNode, c: byte)
    requires Inv(s) && s.error == 0 && s.node == InField(n)
    ensures Kept(s, StepField(s, n, c))
  {
    hide Sequence, SpanOf, ToLower, IsToken;
    if n == HeaderField || n == HeaderField2 {
      FieldWordKeeps(s, n, c);
    }
  }

  lemma StepEdgeKeeps(s: State, n: EdgeNode, c: byte)
    requires Inv(s) && s.error == 0 && s.node == AtEdge(n)
    ensures Kept(s, StepEdge(s, n, c))
  {
    WordsNonEmpty(HeaderValueTeChunked);
    hide Sequence, SpanOf;
  }

  lemma ContentLengthKeeps(s: State, c: byte)
    requires Inv(s) && s.error == 0 && s.node == InValue(HeaderValueContentLength)
    ensures Kept(s, StepValue(s, HeaderValueContentLength, c))
  {
    hide Sequence, SpanOf;
  }

  lemma FlagKeeps(s: State)
    requires Inv(s) && s.error == 0
    ensures Inv(WithStateFlag(s)) && WithStateFlag(s).error == 0
    ensures WithStateFlag(s) == s.(flags := WithStateFlag(s).flags, headerState := WithStateFlag(s).headerState)
  {
    hide Sequence;
  }

  lemma ConnectionKeeps(s: State, n: ValueNode, c: byte)
    requires Inv(s) && s.error == 0 && s.node == InValue(n)
    requires n == HeaderValueConnection || n == HeaderValueConnectionWs || n == HeaderValueConnectionToken
    ensures Kept(s, StepValue(s, n, c))
  {
    WordsNonEmpty(HeaderValueConnection1);
    WordsNonEmpty(HeaderValueConnection2);
    WordsNonEmpty(HeaderValueConnection3);
    hide Sequence, SpanOf, IsValueByte, ToLower, MulAdd, WithStateFlag;
    FlagKeeps(s);
  }

  lemma StepValueKeeps(s: State, n: ValueNode, c: byte)
    requires Inv(s) && s.error == 0 && s.node == InValue(n)
    ensures Kept(s, StepValue(s, n, c))
  {
    hide Sequence, SpanOf, IsValueByte, ToLower, MulAdd, WithStateFlag;
    if n == HeaderValueContentLength {
      ContentLengthKeeps(s, c);
    } else if n == HeaderValueConnection || n == HeaderValueConnectionWs || n == HeaderValueConnectionToken {
      ConnectionKeeps(s, n, c);
    } else {
      WordsNonEmpty(HeaderValueTeChunked);
    }
  }

  lemma HeadersCompleteKeeps(s: State)
    requires Inv(s) && s.error == 0 && s.index == 0
    ensures Inv(HeadersComplete(s).0) && HeadersComplete(s).0.head == s.head
  {
    hide ShouldKeepAlive, MessageNeedsEof, Sequence;
  }

  /** The lengths of chunks and bodies. */
  lemma LengthKeeps(s: State, n: BodyNode, c: byte)
    requires Inv(s) && s.error == 0 && s.node == InBody(n)
    requires n == ChunkSizeDigit || n == ChunkSize || n == ConsumeContentLength || n == ConsumeContentLength1
    ensures Kept(s, StepBody(s, n, c))
  {
    hide HeadersComplete, Sequence, SpanOf, HexDigit, ShouldKeepAlive;
  }

  lemma StepBodyKeeps(s: State, n: BodyNode, c: byte)
    requires Inv(s) && s.error == 0 && s.node == InBody(n)
    ensures Kept(s, StepBody(s, n, c))
  {
    hide HeadersComplete, Sequence, SpanOf, HexDigit, ShouldKeepAlive, SizeDigit, BodyConsumed;
    if n == ChunkSizeDigit || n == ChunkSize || n == ConsumeContentLength || n == ConsumeContentLength1 {
      LengthKeeps(s, n, c);
    } else {
      HeadersCompleteKeeps(s);
    }
  }

  /** Every dispatch keeps the invariant, and a dispatch that leaves its byte in place and
      raises no error lowers the rank. */
  lemma StepKeeps(s: State, c: byte)
    requires Inv(s) && s.error == 0
    ensures Kept(s, Step(s, c))
  {
    hide StepMatch, StepLine, StepField, StepEdge, StepValue, StepBody, Kept;
    match s.node
    case InLine(n) => StepLineKeeps(s, n, c);
    case InField(n) => StepFieldKeeps(s, n, c);
    case AtEdge(n) => StepEdgeKeeps(s, n, c);
    case InValue(n) => StepValueKeeps(s, n, c);
    case InMatch(n) => StepMatchKeeps(s, n, c);
    case InBody(n) => StepBodyKeeps(s, n, c);
  }
}
