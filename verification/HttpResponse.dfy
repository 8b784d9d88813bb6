/** Whole responses: printing a response and parsing it gives it back, however it is cut on the way. */
module HttpResponse {
  import opened Bytes
  import opened Llhttp
  import opened HttpContext
  import opened HttpSpan
  import opened HttpBulk
  import opened HttpParser
  import opened HttpReceive
  import opened HttpChunked
  import opened HttpHead
  import opened HttpHeadName
  import opened HttpHeadToken
  import opened HttpHeadCoding
  import opened HttpHeadValue

  // ---- header lines ----

  function Class(h: Header): nat {
    NameClass(Lowered(h.name))
  }

  predicate HeaderOk(h: Header, flags: Flags) {
    && IsName(h.name) && IsLead(h.space) && IsValue(Class(h), h.value, flags) && IsBreak(h.eol)
    && FoldsFit(Class(h), h.value, h.folds)
  }

  function Line(h: Header): bytes {
    h.name + ([COLON] + (h.space + (h.value + (h.eol + FoldsText(h.folds)))))
  }

  /** u is the parser after a header line. */
  predicate LineDone(s: State, u: State, h: Header) {
    u == s.(index := 0, flags := FlagsAfter(Class(h), h.value, h.folds, s.flags),
            contentLength := LengthAfter(Class(h), h.value, s.contentLength), headerState := u.headerState)
  }

  /** The response after a header line. */
  function HeaderContext(x: Context, h: Header): Context {
    ValueContext(OnHeaderField(After(After(x, h.name), [COLON]), |x.buf|, |h.name|), h.space, h.value, h.eol, h.folds)
  }

  /** At the start of a line, a length is known only if it was announced. */
  predicate AtLine(s: State) {
    s.node == InField(HeaderFieldStart) && (!s.flags.contentLength ==> s.contentLength == 0)
  }

  predicate StartsLine(rest: bytes) {
    rest != [] && rest[0] != SP && rest[0] != TAB
  }

  lemma LineIs(h: Header, rest: bytes)
    ensures Line(h) + rest == h.name + ([COLON] + (h.space + (h.value + (h.eol + (FoldsText(h.folds) + rest)))))
  {
    var end := h.eol + FoldsText(h.folds);
    assert end + rest == h.eol + (FoldsText(h.folds) + rest);
    assert (h.value + end) + rest == h.value + (end + rest);
    assert (h.space + (h.value + end)) + rest == h.space + ((h.value + end) + rest);
    assert ([COLON] + (h.space + (h.value + end))) + rest == [COLON] + ((h.space + (h.value + end)) + rest);
  }

  lemma HeaderFits(s: State, h: Header)
    requires Inv(s) && s.error == 0 && AtLine(s) && HeaderOk(h, s.flags)
    ensures var u := ColonState(s, Lowered(h.name));
            ValueFits(u, h.value) && u.headerState == Class(h) && IsLead(h.space) && IsName(h.name)
            && s.node == InField(HeaderFieldStart)
    ensures IsBreak(h.eol) && (Class(h) == 2 ==> h.value != []) && FoldsFit(Class(h), h.value, h.folds)
  {
    assert IsLength(h.value) ==> h.value != [];
    hide Sequence, IsText, IsLength, Lowered, NameClass, IsLead, IsName, IsBreak, FoldsFit;
  }

  lemma HeaderDone(s: State, u: State, h: Header)
    requires Inv(s) && s.error == 0 && AtLine(s) && ValueDone(ColonState(s, Lowered(h.name)), u, h.value, h.folds)
    requires Class(h) == 2 ==> h.value != []
    ensures LineDone(s, u, h) && AtLine(u)
  {
    hide Sequence, LengthOfText, Tokens, IsChunked, Lowered, NameClass;
  }

  /** One header line. */
  lemma HeaderRun(a: Stage, t: bytes, s: State, x: Context, h: Header, rest: bytes) returns (u: State)
    requires Leads(a, t, Outside(s, x), Line(h) + rest) && AtLine(s) && HeaderOk(h, s.flags) && StartsLine(rest)
    ensures LineDone(s, u, h) && AtLine(u) && Leads(a, t, Outside(u, HeaderContext(x, h)), rest)
  {
    hide *;
    LeadsSound(a, t, Outside(s, x), Line(h) + rest);
    OutsideSound(s, x, []);
    HeaderFits(s, h);
    LineIs(h, rest);
    StartsIs(rest);
    var after := h.space + (h.value + (h.eol + (FoldsText(h.folds) + rest)));
    FieldRun(a, t, s, x, h.name, after);
    var m, y := ColonState(s, Lowered(h.name)), OnHeaderField(After(After(x, h.name), [COLON]), |x.buf|, |h.name|);
    u := ValueRun(a, t, m, y, h.space, h.value, h.eol, h.folds, rest);
    HeaderDone(s, u, h);
    HeaderIs(x, h);
  }

  lemma StartsIs(rest: bytes)
    requires StartsLine(rest)
    ensures rest != [] && rest[0] != SP && rest[0] != TAB
  {
  }

  lemma HeaderIs(x: Context, h: Header)
    ensures HeaderContext(x, h) ==
            ValueContext(OnHeaderField(After(After(x, h.name), [COLON]), |x.buf|, |h.name|), h.space, h.value, h.eol,
                         h.folds)
  {
    hide ValueContext, OnHeaderField;
  }

  // ---- all headers ----

  predicate HeadersOk(hs: seq<Header>, flags: Flags)
    decreases |hs|
  {
    hs == [] || (HeaderOk(hs[0], flags)
        && HeadersOk(hs[1..], FlagsAfter(Class(hs[0]), hs[0].value, hs[0].folds, flags)))
  }

  function Lines(hs: seq<Header>): bytes {
    if hs == [] then [] else Line(hs[0]) + Lines(hs[1..])
  }

  function FlagsOf(hs: seq<Header>, flags: Flags): Flags
    decreases |hs|
  {
    if hs == [] then flags else FlagsOf(hs[1..], FlagsAfter(Class(hs[0]), hs[0].value, hs[0].folds, flags))
  }

  function LengthOf(hs: seq<Header>, n: nat): nat
    decreases |hs|
  {
    if hs == [] then n else LengthOf(hs[1..], LengthAfter(Class(hs[0]), hs[0].value, n))
  }

  /** u is the parser after all the headers: nothing but what they announce has changed. */
  predicate AllLinesDone(s: State, u: State, hs: seq<Header>) {
    u == s.(index := 0, flags := FlagsOf(hs, s.flags), contentLength := LengthOf(hs, s.contentLength),
            headerState := u.headerState)
  }

  function HeadersContext(x: Context, hs: seq<Header>): Context
    decreases |hs|
  {
    if hs == [] then x else HeadersContext(HeaderContext(x, hs[0]), hs[1..])
  }

  lemma FirstHeader(hs: seq<Header>, s: State, u: State)
    requires hs != [] && HeadersOk(hs, s.flags)
    ensures HeaderOk(hs[0], s.flags) && (LineDone(s, u, hs[0]) ==> HeadersOk(hs[1..], u.flags))
  {
    hide HeaderOk, FlagsAfter, LengthAfter, Lowered, NameClass;
  }

  lemma BlankStart(blank: bytes, rest: bytes)
    requires IsBreak(blank)
    ensures StartsLine(blank + rest)
  {
  }

  lemma LinesStart(hs: seq<Header>, flags: Flags, rest: bytes)
    requires HeadersOk(hs, flags) && StartsLine(rest)
    ensures StartsLine(Lines(hs) + rest)
  {
    if hs == [] {
      assert Lines(hs) + rest == rest;
    } else {
      assert IsName(hs[0].name);
      NameFacts(hs[0].name);
      assert (Lines(hs) + rest)[0] == hs[0].name[0];
      hide IsValue, Lowered, NameClass;
    }
  }

  lemma NoHeaders(s: State)
    requires Inv(s) && s.error == 0 && AtLine(s)
    ensures AllLinesDone(s, s, [])
  {
    hide Sequence;
  }

  lemma MoreHeaders(s: State, u: State, v: State, hs: seq<Header>)
    requires hs != [] && LineDone(s, u, hs[0]) && AllLinesDone(u, v, hs[1..])
    ensures AllLinesDone(s, v, hs)
  {
    hide FlagsAfter, LengthAfter, Lowered, NameClass;
  }

  /** Any number of header lines. */
  lemma {:induction false} HeadersRun(a: Stage, t: bytes, s: State, x: Context, hs: seq<Header>, rest: bytes)
    returns (u: State)
    requires Leads(a, t, Outside(s, x), Lines(hs) + rest) && AtLine(s) && HeadersOk(hs, s.flags) && StartsLine(rest)
    ensures AllLinesDone(s, u, hs) && AtLine(u) && Leads(a, t, Outside(u, HeadersContext(x, hs)), rest)
    decreases |hs|
  {
    hide Leads, AtLine, HeaderOk, HeadersOk, StartsLine, Inv, LineDone, AllLinesDone, HeaderContext, Line, Outside;
    LeadsSound(a, t, Outside(s, x), Lines(hs) + rest);
    OutsideSound(s, x, []);
    if hs == [] {
      assert Lines(hs) + rest == rest;
      NoHeaders(s);
      u := s;
    } else {
      var after := Lines(hs[1..]) + rest;
      assert Lines(hs) + rest == Line(hs[0]) + after;
      FirstHeader(hs, s, s);
      LaterLines(hs, s, rest);
      var m := HeaderRun(a, t, s, x, hs[0], after);
      FirstHeader(hs, s, m);
      u := HeadersRun(a, t, m, HeaderContext(x, hs[0]), hs[1..], rest);
      MoreHeaders(s, m, u, hs);
    }
  }

  lemma LaterLines(hs: seq<Header>, s: State, rest: bytes)
    requires hs != [] && HeadersOk(hs, s.flags) && StartsLine(rest)
    ensures StartsLine(Lines(hs[1..]) + rest)
  {
    hide HeaderOk, FlagsAfter, LengthAfter, Lines, StartsLine;
    LinesStart(hs[1..], FlagsAfter(Class(hs[0]), hs[0].value, hs[0].folds, s.flags), rest);
  }

  // ---- the head ----

  predicate HeadOk(h: Head) {
    && StatusOk(h) && HeadersOk(h.headers, NO_FLAGS) && IsBreak(h.blank)
    && !(AllFlags(h).transferEncoding && AllFlags(h).contentLength)
  }

  /** What the headers say about the connection and the body. */
  function AllFlags(h: Head): Flags {
    FlagsOf(h.headers, NO_FLAGS)
  }

  function Length(h: Head): nat {
    LengthOf(h.headers, 0)
  }

  /** The response switches to another protocol, which is not read any further. */
  predicate Switches(h: Head) {
    AllFlags(h).upgrade && AllFlags(h).connectionUpgrade && Code(h) == 101
  }

  /** The head, with its blank line. */
  function HeadText(h: Head): bytes {
    StatusText(h) + (Lines(h.headers) + h.blank)
  }

  /** All but the last byte. */
  function Front(t: bytes): bytes {
    if t == [] then [] else t[..|t| - 1]
  }

  /** The head but for the line feed it ends with. */
  function HeadFront(h: Head): bytes {
    StatusText(h) + (Lines(h.headers) + Front(h.blank))
  }

  lemma HeadParts(head: bool, h: Head)
    requires HeadOk(h)
    ensures StatusOk(h) && HeadersOk(h.headers, LineState(head, h).flags) && AtLine(LineState(head, h))
            && IsBreak(h.blank)
  {
    hide HeadersOk, FlagsOf;
  }

  lemma BlankStarts(s: State) returns (u: State)
    requires Inv(s) && s.error == 0 && AtLine(s)
    ensures u == s.(node := InBody(HeadersAlmostDone)) && u.error == 0 && Inv(u) && SpanOf(s).None? && SpanOf(u).None?
    ensures Step(s, CR) == Out(u, true, []) && Step(s, LF) == Out(u, false, [])
  {
    hide Sequence;
    u := s.(node := InBody(HeadersAlmostDone));
  }

  /** The blank line, up to its line feed. */
  lemma BlankRun(a: Stage, t: bytes, s: State, x: Context, blank: bytes) returns (u: State, y: Context)
    requires Leads(a, t, Outside(s, x), blank) && AtLine(s) && IsBreak(blank)
    ensures u == s.(node := InBody(HeadersAlmostDone)) && u.error == 0 && Inv(u) && SpanOf(u).None?
    ensures y == After(x, Front(blank)) && Leads(a, t, Outside(u, y), [LF])
  {
    hide *;
    LeadsSound(a, t, Outside(s, x), blank);
    OutsideSound(s, x, []);
    u := BlankStarts(s);
    LineBreak([]);
    BreakStarts(blank, []);
    if blank == [LF] {
      MoveOn(a, t, s, x, blank, u);
      y := x;
      FrontIs();
      NothingAfter(x);
    } else {
      FrontIs();
      TakeOn(a, t, s, x, blank, u);
      y := After(x, [CR]);
    }
  }

  lemma FrontIs()
    ensures Front([LF]) == [] && Front([CR, LF]) == [CR] && [CR, LF][1..] == [LF] && [LF] != [] && [CR, LF][0] == CR
  {
  }

  lemma NothingAfter(x: Context)
    ensures After(x, []) == x
  {
  }

  /** The response at the line feed that ends the head. */
  function HeadContext(h: Head): Context {
    After(HeadersContext(StatusContext(h), h.headers), Front(h.blank))
  }

  /** The parser at the line feed that ends the head. */
  predicate KnowsHead(s: State, head: bool, h: Head) {
    && s.error == 0 && s.node == InBody(HeadersAlmostDone) && s.head == head && !s.upgrade && s.index == 0
    && s.flags == AllFlags(h) && s.contentLength == Length(h) && s.statusCode == Code(h)
  }

  lemma ParsedStage(head: bool, t: bytes, u: State, x: Context)
    requires Leads(Outside(Init(head), NEW_CONTEXT), t, Outside(u, x), [LF]) && SpanOf(u).None?
    ensures Inv(u) && Parsed(head, t) == AbsorbAll(System(u, x), [LF])
  {
    FreshInv(head);
    FreshVirtual(head);
    hide AbsorbAll, Inv, Within;
    CutSystem(u, x);
  }

  /** What a head leads to. */
  lemma HeadRun(head: bool, h: Head) returns (u: State)
    requires HeadOk(h)
    ensures IsBreak(h.blank) && KnowsHead(u, head, h) && Inv(u)
            && Parsed(head, HeadText(h)) == AbsorbAll(System(u, HeadContext(h)), [LF])
  {
    hide *;
    HeadParts(head, h);
    var a, t := Outside(Init(head), NEW_CONTEXT), HeadText(h);
    var r := Lines(h.headers) + h.blank;
    TextIsHead(h);
    StatusRun(head, h, r);
    BlankStart(h.blank, []);
    assert h.blank + [] == h.blank;
    var s := HeadersRun(a, t, LineState(head, h), StatusContext(h), h.headers, h.blank);
    var y;
    u, y := BlankRun(a, t, s, HeadersContext(StatusContext(h), h.headers), h.blank);
    ParsedStage(head, t, u, y);
    HeadKnown(head, h, s, u);
    ContextIs(h);
  }

  lemma TextIsHead(h: Head)
    ensures HeadText(h) == StatusText(h) + (Lines(h.headers) + h.blank)
  {
    hide StatusText, Lines;
  }

  lemma ContextIs(h: Head)
    ensures HeadContext(h) == After(HeadersContext(StatusContext(h), h.headers), Front(h.blank))
  {
    hide HeadersContext, StatusContext;
  }

  lemma HeadKnown(head: bool, h: Head, s: State, u: State)
    requires StatusOk(h) && AllLinesDone(LineState(head, h), s, h.headers) && u == s.(node := InBody(HeadersAlmostDone))
    ensures KnowsHead(u, head, h)
  {
    hide FlagsOf, LengthOf, Numeral, Digits;
  }

  /** Before its line feed a head completes nothing. */
  lemma FrontQuiet(head: bool, h: Head)
    requires HeadOk(h)
    ensures HeadText(h) == HeadFront(h) + [LF] && Parsed(head, HeadFront(h)).context.completions == 0
  {
    hide *;
    HeadParts(head, h);
    var a, r := Outside(Init(head), NEW_CONTEXT), Lines(h.headers) + [CR];
    var t := StatusText(h) + r;
    StatusRun(head, h, r);
    BlankStart([CR, LF], []);
    ReturnStarts();
    var s := HeadersRun(a, t, LineState(head, h), StatusContext(h), h.headers, [CR]);
    var x := HeadersContext(StatusContext(h), h.headers);
    LeadsSound(a, t, Outside(s, x), [CR]);
    OutsideSound(s, x, []);
    var u := BlankStarts(s);
    TakeOn(a, t, s, x, [CR], u);
    ParsedAll(head, t, u, After(x, [CR]));
    HeadersQuiet(h);
    FrontParts(h);
    FrontEarlier(head, HeadFront(h), t);
  }

  lemma ReturnStarts()
    ensures StartsLine([CR]) && [CR] != [] && [CR][0] == CR && [CR][1..] == []
  {
  }

  lemma ParsedAll(head: bool, t: bytes, u: State, x: Context)
    requires Leads(Outside(Init(head), NEW_CONTEXT), t, Outside(u, x), []) && SpanOf(u).None?
    ensures Parsed(head, t) == System(u, x)
  {
    FreshInv(head);
    FreshVirtual(head);
    hide AbsorbAll, Inv, Within;
    CutSystem(u, x);
    NothingMore(System(u, x));
  }

  lemma FrontParts(h: Head)
    requires HeadOk(h)
    ensures HeadText(h) == HeadFront(h) + [LF]
    ensures HeadFront(h) == StatusText(h) + (Lines(h.headers) + [CR])
            || HeadFront(h) + [CR] == StatusText(h) + (Lines(h.headers) + [CR])
  {
    hide StatusText, Lines, HeadersOk, StatusOk, AllFlags, Switches;
    FrontIs();
    if h.blank == [LF] {
      assert Lines(h.headers) + [] == Lines(h.headers);
      assert HeadFront(h) == StatusText(h) + Lines(h.headers);
      assert StatusText(h) + Lines(h.headers) + [LF] == StatusText(h) + (Lines(h.headers) + [LF]);
      assert StatusText(h) + Lines(h.headers) + [CR] == StatusText(h) + (Lines(h.headers) + [CR]);
    } else {
      assert [CR] + [LF] == [CR, LF];
      assert StatusText(h) + (Lines(h.headers) + [CR]) + [LF] == StatusText(h) + (Lines(h.headers) + [CR, LF]);
    }
  }

  lemma FrontEarlier(head: bool, f: bytes, t: bytes)
    requires (t == f || t == f + [CR]) && Parsed(head, t).context.completions == 0
    ensures Parsed(head, f).context.completions == 0
  {
    hide Parsed, AbsorbAll, Inv;
    if t != f {
      ParsedMore(head, f, [CR]);
      AllCounts(Parsed(head, f), [CR]);
    }
  }

  /** A Content-Length that is continued on another line is refused, wherever it stands in the head. */
  lemma FoldedLengthRefused(head: bool, h: Head, l: Header, c: byte, rest: bytes)
    requires StatusOk(h) && HeadersOk(h.headers, NO_FLAGS) && HeaderOk(l, AllFlags(h)) && Class(l) == 2 && IsBlank(c)
    ensures Parsed(head, StatusText(h) + (Lines(h.headers) + (Line(l) + ([c] + rest)))).parser.error ==
            HPE_UNEXPECTED_CONTENT_LENGTH
  {
    hide *;
    var more := [c] + rest;
    var last := Line(l) + more;
    var r := Lines(h.headers) + last;
    var a, t := Outside(Init(head), NEW_CONTEXT), StatusText(h) + r;
    StatusRun(head, h, r);
    LineStart(l, AllFlags(h), more);
    LinesAtStart(head, h);
    var s := HeadersRun(a, t, LineState(head, h), StatusContext(h), h.headers, last);
    var x := HeadersContext(StatusContext(h), h.headers);
    HeadersFlags(head, h, s);
    LeadsSound(a, t, Outside(s, x), last);
    OutsideSound(s, x, []);
    HeaderFits(s, l);
    LineIs(l, more);
    NotFolded(l);
    assert FoldsText(l.folds) + more == more;
    var after := l.space + (l.value + (l.eol + more));
    FieldRun(a, t, s, x, l.name, after);
    var m, y := ColonState(s, Lowered(l.name)), OnHeaderField(After(After(x, l.name), [COLON]), |x.buf|, |l.name|);
    LengthFolded(a, t, m, y, l.space, l.value, l.eol, c, rest);
    FreshParsed(head, t);
  }

  lemma LineStart(l: Header, flags: Flags, more: bytes)
    requires HeaderOk(l, flags)
    ensures StartsLine(Line(l) + more)
  {
    NameFacts(l.name);
    assert (Line(l) + more)[0] == l.name[0];
    hide IsValue, Lowered, NameClass, IsLead, FoldsFit, Line;
  }

  lemma LinesAtStart(head: bool, h: Head)
    requires StatusOk(h) && HeadersOk(h.headers, NO_FLAGS)
    ensures AtLine(LineState(head, h)) && HeadersOk(h.headers, LineState(head, h).flags)
  {
    hide HeadersOk;
  }

  lemma HeadersFlags(head: bool, h: Head, s: State)
    requires StatusOk(h) && AllLinesDone(LineState(head, h), s, h.headers)
    ensures s.flags == AllFlags(h)
  {
    hide FlagsOf, LengthOf, Numeral, Digits;
  }

  lemma NotFolded(l: Header)
    requires FoldsFit(Class(l), l.value, l.folds) && Class(l) == 2
    ensures l.folds == [] && FoldsText(l.folds) == []
  {
    hide IsFold, NameClass, Lowered;
  }

  lemma FreshParsed(head: bool, t: bytes)
    ensures var a := Outside(Init(head), NEW_CONTEXT);
            Inv(Virtual(a.s, a.x, a.from).parser) && Parsed(head, t) == AbsorbAll(Virtual(a.s, a.x, a.from), t)
  {
    FreshInv(head);
    FreshVirtual(head);
    hide AbsorbAll, Inv, Virtual;
  }

  // ---- what the headers can announce ----

  /** Chunks are announced by a transfer coding, and some flags are never raised by a head. */
  predicate Plain(f: Flags) {
    !f.skipBody && !f.trailing && (f.chunked ==> f.transferEncoding)
  }

  lemma {:induction false} FlagsPlain(hs: seq<Header>, flags: Flags)
    requires Plain(flags)
    ensures Plain(FlagsOf(hs, flags))
    decreases |hs|
  {
    hide Lowered, NameClass, Tokens, IsChunked;
    if hs != [] {
      FlagsPlain(hs[1..], FlagsAfter(Class(hs[0]), hs[0].value, hs[0].folds, flags));
    }
  }

  lemma {:induction false} LengthAnnounced(hs: seq<Header>, flags: Flags, n: nat)
    requires HeadersOk(hs, flags) && (!flags.contentLength ==> n == 0) && n <= MAX_UINT64
    ensures !FlagsOf(hs, flags).contentLength ==> LengthOf(hs, n) == 0
    ensures LengthOf(hs, n) <= MAX_UINT64
    decreases |hs|
  {
    hide FlagsAfter, LengthAfter, HeaderOk, Lowered, NameClass;
    if hs != [] {
      OneLength(hs[0], flags, n);
      LengthAnnounced(hs[1..], FlagsAfter(Class(hs[0]), hs[0].value, hs[0].folds, flags),
                      LengthAfter(Class(hs[0]), hs[0].value, n));
    }
  }

  lemma OneLength(h: Header, flags: Flags, n: nat)
    requires HeaderOk(h, flags) && (!flags.contentLength ==> n == 0) && n <= MAX_UINT64
    ensures var m := LengthAfter(Class(h), h.value, n);
            m <= MAX_UINT64 && (!FlagsAfter(Class(h), h.value, h.folds, flags).contentLength ==> m == 0)
  {
    assert IsLength(h.value) ==> h.value != [];
    hide Lowered, NameClass, LengthOfText, IsText, IsName, IsLead, FoldsFit, Tokens, IsChunked, IsBreak;
  }

  lemma HeadKnows(h: Head)
    requires HeadOk(h)
    ensures Plain(AllFlags(h)) && (!AllFlags(h).contentLength ==> Length(h) == 0)
            && !(AllFlags(h).transferEncoding && AllFlags(h).contentLength)
    ensures IsBreak(h.blank)
  {
    hide FlagsOf, LengthOf, HeadersOk, Numeral, IsBreak, Switches, StatusOk;
    FlagsPlain(h.headers, NO_FLAGS);
    LengthAnnounced(h.headers, NO_FLAGS, 0);
  }

  // ---- what has been reported after the head ----

  /** The value as the application is told: it begins where the value begins, and its length is that of the text of
      all lines, but what ends the lines is not skipped. */
  function ReportedValue(h: Header): bytes {
    var all, n := h.value + (h.eol + FoldsText(h.folds)), |h.value| + FoldsLength(h.folds);
    if n <= |all| then all[..n] else all
  }

  /** The value as it is written: the text of all its lines. */
  function WrittenValue(h: Header): bytes {
    h.value + JoinedFolds(h.folds)
  }

  function JoinedFolds(folds: seq<Fold>): bytes {
    if folds == [] then [] else folds[0].text + JoinedFolds(folds[1..])
  }

  /** A value on one line is reported as it is written, and no value over several lines is: the report then holds
      a line break and lacks as many bytes at the end. */
  lemma FoldedExact(h: Header, flags: Flags)
    requires HeaderOk(h, flags)
    ensures ReportedValue(h) == WrittenValue(h) <==> h.folds == []
  {
    FoldsShorter(h.folds);
    hide IsValue, Lowered, NameClass, IsLead, IsName, IsFold;
    if h.folds == [] {
      assert h.value + (h.eol + []) == h.value + h.eol;
    } else {
      FoldFacts(h.folds[0]) by { assert h.folds[0] in h.folds; }
      FoldedApart(h);
    }
  }

  lemma FoldedApart(h: Header)
    requires h.folds != [] && h.folds[0].text != [] && IsBlank(h.folds[0].text[0]) && IsBreak(h.eol)
    requires FoldsLength(h.folds) <= |FoldsText(h.folds)|
    ensures ReportedValue(h) != WrittenValue(h)
  {
    var i := |h.value|;
    assert WrittenValue(h)[i] == h.folds[0].text[0];
    assert ReportedValue(h)[i] == h.eol[0];
  }

  lemma {:induction false} FoldsShorter(folds: seq<Fold>)
    ensures FoldsLength(folds) <= |FoldsText(folds)|
    decreases |folds|
  {
    if folds != [] { FoldsShorter(folds[1..]); }
  }

  const FOLDED: Header := Header([65], [SP], [98], [CR, LF], [Fold([SP, 99], [CR, LF])])

  /** The two lines "A: b" and " c" are one header: its value is reported as b and a line break. */
  lemma FoldedExample(flags: Flags)
    ensures HeaderOk(FOLDED, flags) && Line(FOLDED) == [65, COLON, SP, 98, CR, LF, SP, 99, CR, LF]
    ensures ReportedValue(FOLDED) == [98, CR, LF] && WrittenValue(FOLDED) == [98, SP, 99]
  {
    var f := FOLDED.folds;
    assert f[1..] == [];
    assert FoldsText(f) == [SP, 99, CR, LF] && FoldsLength(f) == 2 && JoinedFolds(f) == [SP, 99];
    assert FOLDED.value + (FOLDED.eol + FoldsText(f)) == [98, CR, LF, SP, 99, CR, LF];
    FoldedIsOk(flags);
    hide HeaderOk, FoldsText, FoldsLength, JoinedFolds;
    assert FOLDED.space + (FOLDED.value + (FOLDED.eol + FoldsText(f))) == [SP, 98, CR, LF, SP, 99, CR, LF];
  }

  lemma FoldedIsOk(flags: Flags)
    ensures HeaderOk(FOLDED, flags)
  {
    assert FOLDED.space[1..] == [] && IsLead([]);
    assert Class(FOLDED) == 0 by { assert Lowered([65])[0] == 97; }
    assert IsFold(FOLDED.folds[0]);
    assert FoldsFit(0, [98], FOLDED.folds) by { hide IsFold; }
    hide FoldsFit, Lowered, NameClass;
  }

  /** The headers, as the application is told. */
  function Reports(hs: seq<Header>, code: nat): seq<Reported> {
    if hs == [] then [] else [Reported(hs[0].name, ReportedValue(hs[0]), code)] + Reports(hs[1..], code)
  }

  /** All headers of r have been read, the last of them not yet reported. */
  predicate Read(x: Context, r: seq<Reported>) {
    && CompleteHeader(x).reported == r && CompleteHeader(x).headerCount == |r|
    && (x.field.Some? <==> x.value.Some?)
    && (x.field.Some? ==> x.field.value + x.fieldLen <= |x.buf| && x.value.value + x.valueLen <= |x.buf|)
  }

  /** What headers leave alone. */
  predicate SameRest(x: Context, y: Context) {
    y.parsing == x.parsing && y.statusCode == x.statusCode && y.contentLength == x.contentLength
    && y.closeFlag == x.closeFlag
    && y.keepAliveFlag == x.keepAliveFlag && y.body == x.body && y.bodyLen == x.bodyLen
    && y.completions == x.completions
  }

  lemma SliceAfter(b: bytes, t: bytes, loc: nat, n: nat)
    requires loc + n <= |b|
    ensures Slice(b + t, loc, n) == Slice(b, loc, n)
  {
    assert (b + t)[loc..loc + n] == b[loc..loc + n];
  }

  lemma ReadAfter(x: Context, t: bytes, r: seq<Reported>)
    requires Read(x, r)
    ensures Read(After(x, t), r)
  {
    if x.field.Some? {
      SliceAfter(x.buf, t, x.field.value, x.fieldLen);
      SliceAfter(x.buf, t, x.value.value, x.valueLen);
    }
    hide Slice;
  }

  lemma FieldReported(x: Context, loc: nat, n: nat, r: seq<Reported>)
    requires Read(x, r)
    ensures var y := OnHeaderField(x, loc, n);
            && y.reported == r && y.headerCount == |r| && y.field == Some(loc) && y.fieldLen == n && y.value.None?
            && y.buf == x.buf && SameRest(x, y)
  {
    hide Slice;
  }

  lemma ValueReported(x: Context, loc: nat, n: nat, r: seq<Reported>)
    requires x.reported == r && x.headerCount == |r| && x.field.Some? && x.value.None?
    requires x.field.value + x.fieldLen <= |x.buf| && loc + n <= |x.buf|
    ensures var y := OnHeaderValue(x, loc, n);
            Read(y, r + [Reported(Slice(x.buf, x.field.value, x.fieldLen), Slice(x.buf, loc, n), x.statusCode)])
            && SameRest(x, y) && y.buf == x.buf
  {
    hide Slice;
  }

  lemma SliceIs(b: bytes, t: bytes, n: nat)
    requires n <= |t|
    ensures Slice(b + t, |b|, n) == t[..n]
  {
    assert (b + t)[|b|..|b| + n] == t[..n];
  }

  predicate FoldsBegun(h: Header) {
    h.value == [] ==> h.folds == []
  }

  /** One header more has been read. */
  lemma HeaderReported(x: Context, h: Header, r: seq<Reported>)
    requires Read(x, r) && FoldsBegun(h)
    ensures var y := HeaderContext(x, h);
            Read(y, r + [Reported(h.name, ReportedValue(h), x.statusCode)]) && SameRest(x, y)
            && y.buf == x.buf + Line(h)
  {
    hide *;
    var w := After(After(x, h.name), [COLON]);
    ReadAfter(x, h.name, r);
    ReadAfter(After(x, h.name), [COLON], r);
    FieldReported(w, |x.buf|, |h.name|, r);
    var f := OnHeaderField(w, |x.buf|, |h.name|);
    var n := |h.value| + FoldsLength(h.folds);
    var loc := |f.buf| + |h.space| + (if h.value == [] then |h.eol| else 0);
    var z := After(f, Tail(h));
    AfterRest(x, h.name);
    AfterRest(After(x, h.name), [COLON]);
    NameBytes(x, f, h);
    ValueBytes(f.buf, h);
    HeaderAtOnce(x, f, h);
    AfterParts(f, Tail(h));
    ValueReported(z, loc, n, r);
    AfterRest(f, Tail(h));
    SameRestTwice(x, After(x, h.name), w);
    SameRestTwice(x, w, f);
    SameRestTwice(x, f, z);
    SameRestTwice(x, z, HeaderContext(x, h));
    SameCode(x, z);
  }

  lemma AfterParts(f: Context, t: bytes)
    ensures var z := After(f, t);
            && z.reported == f.reported && z.headerCount == f.headerCount && z.field == f.field
            && z.fieldLen == f.fieldLen
            && z.value == f.value && z.buf == f.buf + t
  {
  }

  lemma AfterRest(x: Context, t: bytes)
    ensures SameRest(x, After(x, t)) && After(x, t).buf == x.buf + t
  {
  }

  /** A header after its colon. */
  function Tail(h: Header): bytes {
    h.space + (h.value + (h.eol + FoldsText(h.folds)))
  }

  /** The lines of a value are reported like one text. */
  lemma HeaderAtOnce(x: Context, f: Context, h: Header)
    requires FoldsBegun(h) && f.value.None? && f == OnHeaderField(After(After(x, h.name), [COLON]), |x.buf|, |h.name|)
    ensures HeaderContext(x, h) ==
            OnHeaderValue(After(f, Tail(h)), |f.buf| + |h.space| + (if h.value == [] then |h.eol| else 0),
                          |h.value| + FoldsLength(h.folds))
  {
    var loc := |f.buf| + |h.space| + (if h.value == [] then |h.eol| else 0);
    var one := h.space + (h.value + h.eol);
    var w := After(f, one);
    HeaderIs(x, h);
    assert HeaderContext(x, h) == FoldsContext(OnHeaderValue(w, loc, |h.value|), h.folds) by {
      hide HeaderContext, OnHeaderField, OnHeaderValue, FoldsContext;
    }
    TailJoins(h);
    hide *;
    AfterTwice(f, one, FoldsText(h.folds));
    AfterParts(f, one);
    FoldsTogether(w, loc, |h.value|, h.folds);
  }

  lemma TailJoins(h: Header)
    ensures (h.space + (h.value + h.eol)) + FoldsText(h.folds) == Tail(h)
  {
    hide FoldsText;
  }

  /** Where the name of a header stands. */
  lemma NameBytes(x: Context, f: Context, h: Header)
    requires f.buf == x.buf + h.name + [COLON]
    ensures var all := f.buf + Tail(h);
            all == x.buf + Line(h) && |x.buf| + |h.name| <= |all| && Slice(all, |x.buf|, |h.name|) == h.name
  {
    var after := [COLON] + Tail(h);
    assert Line(h) == h.name + after;
    hide Slice, Tail, Line;
    assert f.buf + Tail(h) == x.buf + (h.name + after);
    SliceIs(x.buf, h.name + after, |h.name|);
    assert (h.name + after)[..|h.name|] == h.name;
  }

  /** Where the value of a header stands. */
  lemma ValueBytes(b: bytes, h: Header)
    requires FoldsBegun(h)
    ensures var all := b + Tail(h); var n := |h.value| + FoldsLength(h.folds);
            var loc := |b| + |h.space| + (if h.value == [] then |h.eol| else 0);
            loc + n <= |all| && Slice(all, loc, n) == ReportedValue(h)
  {
    var lines := FoldsText(h.folds);
    var text := h.value + (h.eol + lines);
    FoldsShorter(h.folds);
    var n := |h.value| + FoldsLength(h.folds);
    assert ReportedValue(h) == text[..n] && b + Tail(h) == b + (h.space + text);
    hide *;
    var lead := b + h.space;
    assert b + (h.space + text) == lead + text;
    if h.value == [] {
      assert lead + text == (lead + h.eol) + lines;
      NothingContinues(h);
      SliceIs(lead + h.eol, lines, 0);
    } else {
      SliceIs(lead, text, n);
    }
  }

  lemma NothingContinues(h: Header)
    requires FoldsBegun(h) && h.value == []
    ensures FoldsLength(h.folds) == 0 && ReportedValue(h) == []
  {
  }

  lemma SameRestTwice(x: Context, y: Context, z: Context)
    requires SameRest(x, y) && SameRest(y, z)
    ensures SameRest(x, z)
  {
  }

  /** All headers have been read. */
  lemma {:induction false} HeadersReported(x: Context, hs: seq<Header>, r: seq<Reported>)
    requires Read(x, r) && forall h | h in hs :: FoldsBegun(h)
    ensures var y := HeadersContext(x, hs);
            Read(y, r + Reports(hs, x.statusCode)) && SameRest(x, y) && y.buf == x.buf + Lines(hs)
    decreases |hs|
  {
    hide Read, SameRest, HeaderContext, Line, ReportedValue, FoldsBegun;
    if hs == [] {
      assert r + Reports(hs, x.statusCode) == r && x.buf + Lines(hs) == x.buf;
      assert SameRest(x, x) by { hide SameRest; SameRestAgain(x); }
    } else {
      var y, one := HeaderContext(x, hs[0]), Reported(hs[0].name, ReportedValue(hs[0]), x.statusCode);
      HeaderReported(x, hs[0], r);
      SameCode(x, y);
      HeadersReported(y, hs[1..], r + [one]);
      SameRestTwice(x, y, HeadersContext(y, hs[1..]));
      assert r + [one] + Reports(hs[1..], x.statusCode) == r + Reports(hs, x.statusCode);
      assert x.buf + Line(hs[0]) + Lines(hs[1..]) == x.buf + Lines(hs);
    }
  }

  lemma SameRestAgain(x: Context)
    ensures SameRest(x, x)
  {
  }

  lemma SameCode(x: Context, y: Context)
    requires SameRest(x, y)
    ensures y.statusCode == x.statusCode
  {
  }

  lemma HeadContinues(h: Head)
    requires HeadOk(h)
    ensures forall e | e in h.headers :: FoldsBegun(e)
  {
    hide StatusOk, AllFlags, HeaderOk, FoldsBegun;
    AllContinue(h.headers, NO_FLAGS);
  }

  lemma {:induction false} AllContinue(hs: seq<Header>, flags: Flags)
    requires HeadersOk(hs, flags)
    ensures forall e | e in hs :: FoldsBegun(e)
    decreases |hs|
  {
    hide FlagsAfter, IsName, IsValue, IsLead, IsBreak, NameClass, Lowered, IsFold;
    if hs != [] {
      AllContinue(hs[1..], FlagsAfter(Class(hs[0]), hs[0].value, hs[0].folds, flags));
    }
  }

  /** What the response holds once the head h has been read. */
  predicate Announces(y: Context, h: Head) {
    && y.statusCode == ReportedCode(h) && y.reported == Reports(h.headers, ReportedCode(h))
    && y.headerCount == |h.headers|
    && y.contentLength == (if Length(h) == MAX_UINT64 then 0 else Length(h) % SIZE_T_MODULUS)
    && y.closeFlag == AllFlags(h).close && y.keepAliveFlag == AllFlags(h).keepAlive
  }

  lemma StartRead(h: Head)
    ensures Read(StatusContext(h), []) && StatusContext(h).statusCode == ReportedCode(h)
  {
    hide StatusText, Numeral;
  }

  lemma {:induction false} ReportsLength(hs: seq<Header>, code: nat)
    ensures |Reports(hs, code)| == |hs|
    decreases |hs|
  {
    if hs != [] { ReportsLength(hs[1..], code); }
  }

  /** The response after the blank line. */
  function BlankContext(h: Head): Context {
    OnHeadersComplete(Grow(HeadContext(h), LF), Length(h), AllFlags(h))
  }

  lemma BlankReported(x: Context, n: nat, f: Flags, r: seq<Reported>)
    requires Read(x, r)
    ensures var y := OnHeadersComplete(x, n, f);
            && y.reported == r && y.headerCount == |r|
            && y.contentLength == (if n == MAX_UINT64 then 0 else n % SIZE_T_MODULUS)
            && y.closeFlag == (x.closeFlag || f.close) && y.keepAliveFlag == (x.keepAliveFlag || f.keepAlive)
            && y.parsing == x.parsing && y.statusCode == x.statusCode && y.body == x.body
            && y.completions == x.completions
  {
    hide Slice;
  }

  lemma HeadReported(h: Head)
    requires HeadOk(h)
    ensures Announces(BlankContext(h), h)
    ensures var y := BlankContext(h); y.parsing == HTTP_PARSING_INCOMPLETE && y.body.None? && y.completions == 0
  {
    var x, r := StatusContext(h), Reports(h.headers, ReportedCode(h));
    StartRead(h);
    HeadContinues(h);
    HeadersReported(x, h.headers, []);
    assert [] + r == r;
    ReportsLength(h.headers, ReportedCode(h));
    var y := HeadersContext(x, h.headers);
    ReadAfter(y, Front(h.blank), r);
    ReadAfter(HeadContext(h), [LF], r);
    hide Read, HeadersContext, StatusText, AllFlags, Length, Reports, Numeral, OnHeadersComplete, Front;
    BlankReported(Grow(HeadContext(h), LF), Length(h), AllFlags(h), r);
  }

  /** The headers complete nothing. */
  lemma HeadersQuiet(h: Head)
    requires HeadOk(h)
    ensures After(HeadersContext(StatusContext(h), h.headers), [CR]).completions == 0
  {
    StartRead(h);
    HeadContinues(h);
    HeadersReported(StatusContext(h), h.headers, []);
    hide Read, HeadersContext, StatusText, Reports;
  }

  // ---- messages ----

  datatype Body = NoBody | Sized(data: bytes) | Chunked(chunks: seq<Chunk>, last: bytes, extension: bytes)

  datatype Message = Message(head: Head, body: Body)

  /** The status codes of responses that never have a body. */
  predicate Bodiless(code: nat) {
    code / 100 == 1 || code == 204 || code == 304
  }

  /** The body is framed as the code reads the head, and ends before the connection does; isHead tells whether this
      answers a HEAD request. */
  predicate MessageOk(isHead: bool, m: Message) {
    && HeadOk(m.head)
    && var f, n := AllFlags(m.head), Length(m.head);
       match m.body
       case NoBody => isHead || (!f.transferEncoding && n == 0 && (f.contentLength || Bodiless(Code(m.head))))
       case Sized(data) => !isHead && f.contentLength && n == |data| > 0
       case Chunked(cs, last, extension) => !isHead && f.chunked && IsChunkedBody(cs, last, extension)
  }

  function BodyBytes(b: Body): bytes {
    match b
    case NoBody => []
    case Sized(data) => data
    case Chunked(cs, last, extension) => ChunkedBody(cs, last, extension)
  }

  function BodyData(b: Body): bytes {
    match b
    case NoBody => []
    case Sized(data) => data
    case Chunked(cs, _, _) => AllData(cs)
  }

  function MessageText(m: Message): bytes {
    HeadText(m.head) + BodyBytes(m.body)
  }

  /** The response holds the message: its status, its headers in order, and its body. */
  predicate Holds(x: Context, m: Message) {
    && Announces(x, m.head) && BodyText(x) == BodyData(m.body)
    && (BodyData(m.body) != [] ==> x.bodyLen == |BodyData(m.body)|)
    && x.parsing == HTTP_PARSING_COMPLETE && x.completions == 1
  }

  lemma BlankAbsorbed(v: System)
    requires Inv(v.parser) && v.parser.error == 0 && v.parser.node == InBody(HeadersAlmostDone)
    ensures var (u, items) := HeadersComplete(v.parser);
            AbsorbAll(v, [LF]) == System(u, ApplyAll(Grow(v.context, LF), items, |v.context.buf|))
  {
    hide Absorb, HeadersComplete, Sequence, ApplyAll;
    AbsorbAllStep(v, [LF]);
    AbsorbStep(v, LF);
    NothingMore(Absorb(v, LF));
    assert [LF][1..] == [];
  }

  /** The state in which the body is looked for. */
  function BodyState(s: State, upgrade: bool): State {
    s.(upgrade := upgrade, flags := s.flags.(skipBody := s.flags.skipBody || s.head))
  }

  lemma BlankFraming(s: State, h: Head)
    requires KnowsHead(s, s.head, h) && Plain(AllFlags(h))
    requires !(AllFlags(h).transferEncoding && AllFlags(h).contentLength)
    ensures var t := BodyState(s, Switches(h));
            HeadersComplete(s) == (Framed(t).0, [HeadersDone(Length(h), AllFlags(h))] + Framed(t).1)
  {
    hide Framed, AllFlags, Length, Code;
  }

  /** The head leads to the body, or to the end of the message, in both cases without an error. */
  predicate Begins(isHead: bool, m: Message) {
    MessageOk(isHead, m) && (m.body.NoBody? ==> !Switches(m.head))
  }

  lemma FramingOf(isHead: bool, m: Message, s: State)
    requires Begins(isHead, m) && KnowsHead(s, isHead, m.head)
    ensures AfterHeadersComplete(BodyState(s, Switches(m.head))) ==
            match m.body case NoBody => Framing.NoBody case Sized(_) => Identity case Chunked(_, _, _) => Chunks
  {
    HeadKnows(m.head);
    hide AllFlags, Length, HeadOk, IsChunkedBody, Code;
  }

  lemma FramedItems(t: State)
    ensures AfterHeadersComplete(t) == Framing.NoBody ==>
              Framed(t).1 == [Done] && (t.error == 0 ==> Framed(t).0.error == 0)
    ensures AfterHeadersComplete(t) == Identity ==>
              Framed(t).1 == [] && Framed(t).0 == t.(node := InBody(SpanStartBody1))
    ensures AfterHeadersComplete(t) == Chunks ==>
              Framed(t).1 == [] && Framed(t).0 == t.(node := InBody(ChunkSizeDigit), contentLength := 0)
  {
    hide AfterHeadersComplete;
  }

  lemma ItemsApplied(b: Body, x: Context, h: Head)
    requires x == HeadContext(h)
    ensures var items := [HeadersDone(Length(h), AllFlags(h))] + (if b.NoBody? then [Done] else []);
            ApplyAll(Grow(x, LF), items, |x.buf|) == if b.NoBody? then Completed(BlankContext(h)) else BlankContext(h)
  {
    var one := HeadersDone(Length(h), AllFlags(h));
    var items := [one] + (if b.NoBody? then [Done] else []);
    assert items[1..] == if b.NoBody? then [Done] else [];
    assert [Done][1..] == [];
    hide HeadContext, OnHeadersComplete, AllFlags, Length;
  }

  /** The parser where the body begins. */
  predicate BeginsBody(t: State, isHead: bool, m: Message) {
    match m.body
    case NoBody => t.error == 0
    case Sized(data) =>
      t.error == 0 && t.node == InBody(SpanStartBody1) && t.contentLength == |data| > 0 && t.upgrade == Switches(m.head)
    case Chunked(_, _, _) =>
      t.error == 0 && t.node == InBody(ChunkSizeDigit) && t.contentLength == 0 && t.index == 0
      && t.upgrade == Switches(m.head)
  }

  lemma BodyBegins(isHead: bool, m: Message, s: State)
    requires Begins(isHead, m) && KnowsHead(s, isHead, m.head)
    ensures BeginsBody(Framed(BodyState(s, Switches(m.head))).0, isHead, m)
  {
    FramingOf(isHead, m, s);
    FramedItems(BodyState(s, Switches(m.head)));
    hide Switches, Framed, AfterHeadersComplete, AllFlags, Length, HeadOk, IsChunkedBody, Code;
  }

  /** The head decides about the body. */
  lemma HeadRead(isHead: bool, m: Message) returns (t: State)
    requires Begins(isHead, m)
    ensures BeginsBody(t, isHead, m) && Inv(t)
    ensures Parsed(isHead, HeadText(m.head)) ==
            System(t, if m.body.NoBody? then Completed(BlankContext(m.head)) else BlankContext(m.head))
  {
    hide *;
    BeginsOk(isHead, m);
    MessageHead(isHead, m);
    var h := m.head;
    var s := HeadRun(isHead, h);
    HeadKnows(h);
    KnownHead(s, isHead, h);
    FramingOf(isHead, m, s);
    BlankAbsorbed(System(s, HeadContext(h)));
    BlankFraming(s, h);
    FramedItems(BodyState(s, Switches(h)));
    ItemsApplied(m.body, HeadContext(h), h);
    BodyBegins(isHead, m, s);
    t := Framed(BodyState(s, Switches(h))).0;
    ParsedMore(isHead, HeadText(h), []);
  }

  lemma KnownHead(s: State, head: bool, h: Head)
    requires KnowsHead(s, head, h)
    ensures s.error == 0 && s.node == InBody(HeadersAlmostDone) && s.head == head
  {
    hide AllFlags, Length, Code;
  }

  lemma MessageHead(isHead: bool, m: Message)
    requires MessageOk(isHead, m)
    ensures HeadOk(m.head)
  {
    hide HeadOk;
  }

  lemma BeginsOk(isHead: bool, m: Message)
    ensures Begins(isHead, m) <==> MessageOk(isHead, m) && (m.body.NoBody? ==> !Switches(m.head))
  {
    hide MessageOk, Switches;
  }

  lemma MessageBytes(m: Message)
    ensures MessageText(m) == HeadText(m.head) + BodyBytes(m.body)
    ensures m.body.NoBody? ==> BodyBytes(m.body) == [] && BodyData(m.body) == [] && MessageText(m) == HeadText(m.head)
    ensures m.body.Sized? ==> BodyBytes(m.body) == m.body.data == BodyData(m.body)
    ensures m.body.Chunked? ==>
              && BodyBytes(m.body) == ChunkedBody(m.body.chunks, m.body.last, m.body.extension)
              && BodyData(m.body) == AllData(m.body.chunks)
  {
    hide HeadText, ChunkedBody, AllData;
    assert m.body.NoBody? ==> HeadText(m.head) + [] == HeadText(m.head);
  }

  /** Without a body the message is complete with the blank line. */
  lemma BodilessRead(isHead: bool, m: Message)
    requires MessageOk(isHead, m) && m.body.NoBody? && !Switches(m.head)
    ensures Parsed(isHead, MessageText(m)).parser.error == 0 && Holds(Parsed(isHead, MessageText(m)).context, m)
    ensures Parsed(isHead, HeadFront(m.head)).context.completions == 0 && MessageText(m) == HeadFront(m.head) + [LF]
  {
    hide *;
    MessageHead(isHead, m);
    BeginsOk(isHead, m);
    var t := HeadRead(isHead, m);
    NoBodyBegins(t, isHead, m);
    HeadReported(m.head);
    FrontQuiet(isHead, m.head);
    MessageBytes(m);
    CompletedHolds(BlankContext(m.head), Completed(BlankContext(m.head)), m);
  }

  // ---- a switch of protocols ----

  lemma SwitchFraming(s: State, h: Head)
    requires KnowsHead(s, s.head, h) && Plain(AllFlags(h)) && Switches(h)
             && (s.head || (!AllFlags(h).chunked && Length(h) == 0))
    requires !(AllFlags(h).transferEncoding && AllFlags(h).contentLength)
    ensures HeadersComplete(s).0.error == HPE_PAUSED_UPGRADE
    ensures HeadersComplete(s).1 == [HeadersDone(Length(h), AllFlags(h)), Done]
  {
    hide AllFlags, Length, Code;
  }

  /** A response that switches to another protocol is complete with its head, and then stops the parser: it holds
      the head, but the call that reads it reports an error. */
  lemma SwitchRead(isHead: bool, h: Head)
    requires HeadOk(h) && Switches(h) && (isHead || (!AllFlags(h).chunked && Length(h) == 0))
    ensures var v := Parsed(isHead, HeadText(h));
            && v.parser.error == HPE_PAUSED_UPGRADE && ProcessLlhttpError(v.parser.error) == HTTPParserInternalError
            && v.context == Completed(BlankContext(h))
            && Announces(v.context, h) && v.context.parsing == HTTP_PARSING_COMPLETE && v.context.completions == 1
  {
    hide *;
    var s := HeadRun(isHead, h);
    HeadKnows(h);
    KnownHead(s, isHead, h);
    SwitchFraming(s, h);
    BlankAbsorbed(System(s, HeadContext(h)));
    ItemsApplied(Body.NoBody, HeadContext(h), h);
    NoBodyIs();
    HeadReported(h);
    assert [HeadersDone(Length(h), AllFlags(h))] + [Done] == [HeadersDone(Length(h), AllFlags(h)), Done];
    CompletedAnnounces(BlankContext(h), h);
    PausedUpgrade();
  }

  lemma NoBodyIs()
    ensures Body.NoBody.NoBody?
  {
  }

  lemma PausedUpgrade()
    ensures ProcessLlhttpError(HPE_PAUSED_UPGRADE) == HTTPParserInternalError
  {
  }

  lemma CompletedAnnounces(x: Context, h: Head)
    requires Announces(x, h) && x.completions == 0
    ensures Announces(Completed(x), h) && Completed(x).completions == 1 && Completed(x).parsing == HTTP_PARSING_COMPLETE
  {
    hide Reports, AllFlags, Length;
  }

  lemma NoBodyBegins(t: State, isHead: bool, m: Message)
    requires BeginsBody(t, isHead, m) && m.body.NoBody?
    ensures t.error == 0
  {
  }

  lemma CompletedHolds(x: Context, y: Context, m: Message)
    requires Announces(x, m.head) && x.completions == 0 && x.body.None? && m.body.NoBody? && y == Completed(x)
    ensures Holds(y, m)
  {
    hide Reports, AllFlags, Length;
  }

  // ---- a body of known length ----

  lemma SizedStarts(s: State, data: bytes) returns (u: State)
    requires s.error == 0 && s.node == InBody(SpanStartBody1) && Inv(s) && data != [] && s.contentLength == |data|
    ensures u == s.(node := InBody(ConsumeContentLength1)) && Consuming(u) && u.error == 0 && u.contentLength == |data|
    ensures Step(s, data[0]) == Out(u, false, []) && SpanOf(s).None?
    ensures forall x: Context :: Cut(s, x, |x.buf|) ==> Cut(u, x, |x.buf|)
  {
    hide Sequence, Within;
    u := s.(node := InBody(ConsumeContentLength1));
  }

  /** The blank line of a message with a body of known length. */
  lemma SizedBegins(m: Message) returns (s: State)
    requires MessageOk(false, m) && m.body.Sized?
    ensures Parsed(false, HeadText(m.head)) == System(s, BlankContext(m.head))
    ensures s.error == 0 && s.node == InBody(SpanStartBody1) && s.contentLength == |m.body.data| > 0
            && s.upgrade == Switches(m.head)
    ensures Inv(s) && Cut(s, BlankContext(m.head), |BlankContext(m.head).buf|)
  {
    hide *;
    BeginsOk(false, m);
    NotBodiless(m);
    s := HeadRead(false, m);
    SizedState(s, m);
    ParsedWithin(false, HeadText(m.head));
  }

  lemma NotBodiless(m: Message)
    ensures m.body.Sized? || m.body.Chunked? ==> !m.body.NoBody?
  {
  }

  lemma SizedState(s: State, m: Message)
    requires BeginsBody(s, false, m) && m.body.Sized?
    ensures s.error == 0 && s.node == InBody(SpanStartBody1) && s.contentLength == |m.body.data| > 0
            && s.upgrade == Switches(m.head) && SpanOf(s).None?
  {
  }

  lemma SizedLength(m: Message)
    requires MessageOk(false, m) && m.body.Sized?
    ensures Length(m.head) == |m.body.data| > 0
  {
    hide HeadOk, Length, AllFlags;
  }

  lemma SizedDone(s: State)
    requires Consuming(s) && s.node == InBody(ConsumeContentLength1) && s.error == 0
    ensures BodyDone(s).error == if s.upgrade then HPE_PAUSED_UPGRADE else 0
  {
    hide ShouldKeepAlive;
  }

  /** Reading some of the data is consuming it. */
  lemma SizedReads(m: Message, part: bytes) returns (u: State)
    requires MessageOk(false, m) && m.body.Sized? && part != [] && part[0] == m.body.data[0]
    ensures Consuming(u) && u.node == InBody(ConsumeContentLength1) && u.upgrade == Switches(m.head) && u.error == 0
    ensures u.contentLength == |m.body.data|
    ensures Cut(u, BlankContext(m.head), |BlankContext(m.head).buf|)
    ensures Parsed(false, HeadText(m.head) + part) == AbsorbAll(System(u, BlankContext(m.head)), part)
  {
    hide *;
    var s := SizedBegins(m);
    ParsedMore(false, HeadText(m.head), part);
    u := SizedStarts(s, m.body.data);
    MoveFirst(s, u, BlankContext(m.head), part);
  }

  /** All the data but its last byte completes nothing. */
  lemma SizedPart(m: Message)
    requires MessageOk(false, m) && m.body.Sized?
    ensures Parsed(false, HeadText(m.head) + Front(m.body.data)).context.completions == 0
  {
    var data := m.body.data;
    var part := Front(data);
    SizedLength(m);
    FrontShorter(data);
    hide *;
    MessageHead(false, m);
    HeadReported(m.head);
    if part == [] {
      var s := SizedBegins(m);
      assert HeadText(m.head) + part == HeadText(m.head);
    } else {
      var u := SizedReads(m, part);
      BodyConserved(u, BlankContext(m.head), part);
      ExtendedCount(BlankContext(m.head), Parsed(false, HeadText(m.head) + part).context, part);
    }
  }

  /** The error a message ends in. */
  function EndError(m: Message): nat {
    if Switches(m.head) then HPE_PAUSED_UPGRADE else 0
  }

  lemma EndErrorIs(m: Message)
    ensures EndError(m) == if Switches(m.head) then HPE_PAUSED_UPGRADE else 0
  {
    hide Switches;
  }

  /** All the data completes the message. */
  lemma SizedWhole(m: Message) returns (y: Context)
    requires MessageOk(false, m) && m.body.Sized?
    ensures var w := Parsed(false, HeadText(m.head) + m.body.data);
            w.parser.error == EndError(m) && Extended(BlankContext(m.head), y, m.body.data) && w.context == Completed(y)
  {
    var x, data := BlankContext(m.head), m.body.data;
    SizedLength(m);
    hide *;
    var u := SizedReads(m, data);
    BodyConserved(u, x, data);
    SizedDone(u);
    EndErrorIs(m);
    y := OnPiece(After(x, data), Body, |x.buf|, |data|);
  }

  lemma FrontShorter(t: bytes)
    ensures t != [] ==>
              |Front(t)| == |t| - 1 && Front(t) + [t[|t| - 1]] == t && (Front(t) != [] ==> Front(t)[0] == t[0])
    ensures t == [] ==> Front(t) == []
  {
  }

  lemma ExtendedCount(x: Context, y: Context, data: bytes)
    requires Extended(x, y, data)
    ensures y.completions == x.completions
  {
    hide Within, BodyText, HeadText;
  }

  lemma ExtendedHolds(x: Context, y: Context, m: Message)
    requires Announces(x, m.head) && x.completions == 0 && x.body.None? && m.body.Sized? && Extended(x, y, m.body.data)
    ensures Holds(Completed(y), m)
  {
    hide Reports, AllFlags, Length, Within;
  }

  lemma SizedRead(m: Message)
    requires MessageOk(false, m) && m.body.Sized?
    ensures Parsed(false, MessageText(m)).parser.error == EndError(m) && Holds(Parsed(false, MessageText(m)).context, m)
    ensures var front := HeadText(m.head) + Front(m.body.data);
            Parsed(false, front).context.completions == 0 && |MessageText(m)| == |front| + 1 && front <= MessageText(m)
  {
    hide *;
    MessageBytes(m);
    MessageHead(false, m);
    HeadReported(m.head);
    SizedLength(m);
    var data := m.body.data;
    FrontShorter(data);
    var y := SizedWhole(m);
    ExtendedHolds(BlankContext(m.head), y, m);
    SizedPart(m);
    assert MessageText(m) == (HeadText(m.head) + Front(data)) + [data[|data| - 1]];
  }

  // ---- a chunked body ----

  lemma ChunkedAnnounced(m: Message)
    requires MessageOk(false, m) && m.body.Chunked?
    ensures AnnouncesChunks(HeadText(m.head)) && IsChunkedBody(m.body.chunks, m.body.last, m.body.extension)
    ensures Parsed(false, HeadText(m.head)).context == BlankContext(m.head)
            && Parsed(false, HeadText(m.head)).parser.upgrade == Switches(m.head)
  {
    hide *;
    BeginsOk(false, m);
    NotBodiless(m);
    var t := HeadRead(false, m);
    MessageHead(false, m);
    HeadReported(m.head);
    ChunksState(t, m);
    AnnouncesIs(m.head, t);
  }

  lemma ChunksState(t: State, m: Message)
    requires BeginsBody(t, false, m) && MessageOk(false, m) && m.body.Chunked? && Inv(t)
    ensures BeforeChunk(t) && t.upgrade == Switches(m.head)
            && IsChunkedBody(m.body.chunks, m.body.last, m.body.extension)
  {
    hide HeadOk, IsChunkedBody, AllFlags, Length, Inv;
  }

  lemma AnnouncesIs(h: Head, t: State)
    requires BeforeChunk(t) && Parsed(false, HeadText(h)) == System(t, BlankContext(h))
    requires BlankContext(h).completions == 0 && BlankContext(h).body.None?
    ensures AnnouncesChunks(HeadText(h))
  {
    hide Parsed, HeadText, BlankContext, BeforeChunk;
  }

  lemma ChunkedRead(m: Message)
    requires MessageOk(false, m) && m.body.Chunked?
    ensures CompleteAtEnd(false, MessageText(m)) && Parsed(false, MessageText(m)).parser.error == EndError(m)
    ensures Holds(Parsed(false, MessageText(m)).context, m)
  {
    hide *;
    EndErrorIs(m);
    MessageBytes(m);
    MessageHead(false, m);
    HeadReported(m.head);
    ChunkedAnnounced(m);
    ChunkedResponse(HeadText(m.head), m.body.chunks, m.body.last, m.body.extension);
    ChunkedHolds(BlankContext(m.head), Parsed(false, MessageText(m)).context, m);
  }

  lemma ChunkedHolds(x: Context, y: Context, m: Message)
    requires Announces(x, m.head) && m.body.Chunked? && BodyText(y) == AllData(m.body.chunks)
    requires m.body.chunks != [] ==> y.bodyLen == |AllData(m.body.chunks)|
    requires y ==
             x.(body := y.body, bodyLen := y.bodyLen, buf := y.buf, parsing := y.parsing, completions := y.completions)
    requires y.completions == 1 && y.parsing == HTTP_PARSING_COMPLETE
    ensures Holds(y, m)
  {
    hide Reports, AllFlags, Length, BodyText;
  }

  // ---- every message ----

  lemma OnlyAtLast(isHead: bool, front: bytes, t: bytes)
    requires front <= t && |t| == |front| + 1 && Parsed(isHead, front).context.completions == 0
    requires Parsed(isHead, t).context.parsing == HTTP_PARSING_COMPLETE
    ensures CompleteAtEnd(isHead, t)
  {
    hide Parsed;
    forall n | 0 <= n < |t| ensures Parsed(isHead, t[..n]).context.parsing != HTTP_PARSING_COMPLETE {
      assert t[..n] == front[..n];
      NotYet(isHead, front, n);
    }
  }

  lemma HoldsComplete(x: Context, m: Message)
    requires Holds(x, m)
    ensures x.parsing == HTTP_PARSING_COMPLETE
  {
    hide Announces, BodyData;
  }

  lemma SizedAnswers(isHead: bool, m: Message)
    requires MessageOk(isHead, m) && !m.body.NoBody?
    ensures !isHead
  {
    hide HeadOk, IsChunkedBody, AllFlags, Length;
  }

  /** A message that has no body and switches protocols. */
  lemma BodilessSwitch(isHead: bool, m: Message)
    requires MessageOk(isHead, m) && m.body.NoBody? && Switches(m.head)
    ensures Parsed(isHead, MessageText(m)).parser.error == HPE_PAUSED_UPGRADE
            && Holds(Parsed(isHead, MessageText(m)).context, m)
    ensures Parsed(isHead, HeadFront(m.head)).context.completions == 0 && MessageText(m) == HeadFront(m.head) + [LF]
  {
    BodilessSwitches(isHead, m);
    hide *;
    MessageHead(isHead, m);
    SwitchRead(isHead, m.head);
    FrontQuiet(isHead, m.head);
    MessageBytes(m);
    HeadReported(m.head);
    CompletedHolds(BlankContext(m.head), Parsed(isHead, MessageText(m)).context, m);
  }

  lemma BodilessSwitches(isHead: bool, m: Message)
    requires MessageOk(isHead, m) && m.body.NoBody? && Switches(m.head)
    ensures isHead || (!AllFlags(m.head).chunked && Length(m.head) == 0)
  {
    HeadKnows(m.head);
    hide AllFlags, Length, HeadOk, Code;
  }

  /** Parsing what is printed: every message is complete with its last byte and not before, and the response then
      holds its status, its headers in order and its body; it is received as one response if and only if it does
      not switch protocols, which ends in an error. */
  lemma MessageRead(isHead: bool, m: Message)
    requires MessageOk(isHead, m)
    ensures CompleteAtEnd(isHead, MessageText(m)) && Holds(Parsed(isHead, MessageText(m)).context, m)
    ensures Parsed(isHead, MessageText(m)).parser.error == EndError(m)
    ensures OneResponse(isHead, MessageText(m)) <==> !Switches(m.head)
  {
    hide *;
    var t := MessageText(m);
    EndErrorIs(m);
    if m.body.NoBody? {
      if Switches(m.head) {
        BodilessSwitch(isHead, m);
      } else {
        BodilessRead(isHead, m);
      }
      HoldsComplete(Parsed(isHead, t).context, m);
      OnlyAtLast(isHead, HeadFront(m.head), t);
    } else {
      SizedAnswers(isHead, m);
      if m.body.Sized? {
        SizedRead(m);
        HoldsComplete(Parsed(isHead, t).context, m);
        OnlyAtLast(isHead, HeadText(m.head) + Front(m.body.data), t);
      } else {
        ChunkedRead(m);
      }
    }
    OneOrPaused(isHead, t, m);
  }

  lemma OneOrPaused(isHead: bool, t: bytes, m: Message)
    requires CompleteAtEnd(isHead, t) && Parsed(isHead, t).parser.error == EndError(m)
    ensures OneResponse(isHead, t) <==> !Switches(m.head)
  {
    hide Parsed, Switches;
  }

  /** Receiving a message that fits the buffer succeeds whenever the transport hands out all of it, in whatever
      pieces, and the response then holds the message; if it switches protocols, receiving it never succeeds. */
  lemma MessageReceived(parser: Parser, m: Message, offered: nat, status: HTTPStatus, n: nat)
    requires MessageOk(parser.data.isHeadResponse, m) && |MessageText(m)| <= parser.data.buffer.Length
    requires Outcome(parser, MessageText(m), offered, status, n)
    ensures !Switches(m.head) && offered >= |MessageText(m)| ==> status == HTTPSuccess
    ensures status == HTTPSuccess ==> !Switches(m.head) && n == |MessageText(m)| && Holds(parser.data.View(n), m)
  {
    MessageRead(parser.data.isHeadResponse, m);
    hide MessageOk, MessageText, OneResponse, Holds, Parsed, Reflects, FinalResponseStatus, ProcessLlhttpError,
             Switches, CompleteAtEnd;
    if Switches(m.head) {
      FailsAtEnd(parser, MessageText(m), offered, status, n);
    }
  }

  /** What ends in an error is never received with success. */
  lemma FailsAtEnd(parser: Parser, t: bytes, offered: nat, status: HTTPStatus, n: nat)
    requires Outcome(parser, t, offered, status, n)
    requires CompleteAtEnd(parser.data.isHeadResponse, t) && Parsed(parser.data.isHeadResponse, t).parser.error != 0
    ensures status != HTTPSuccess
  {
    hide Parsed, Outcome;
    assert t[..|t|] == t;
    if status == HTTPSuccess {
      SuccessComplete(parser, t, offered, status, n);
      assert false;
    }
  }
}
