/** Where a body ends: what the code makes of a head, against section 3.3.3 of RFC 7230. */
module HttpFraming {
  import opened Bytes
  import opened Llhttp
  import opened HttpContext
  import opened HttpSpan
  import opened HttpBulk
  import opened HttpParser
  import opened HttpReceive
  import opened HttpChunked
  import opened HttpHead
  import opened HttpHeadName
  import opened HttpHeadToken
  import opened HttpHeadCoding
  import opened HttpLastCoding
  import opened HttpHeadValue
  import opened HttpResponse

  // ---- all codings of a head ----

  function Listed(list: bytes, v: bytes): bytes {
    if v == [] then list else if list == [] then v else list + [COMMA] + v
  }

  /** The codings of all Transfer-Encoding headers as one list (section 3.2.2 of RFC 7230). */
  function CodingsOf(hs: seq<Header>, list: bytes): bytes
    decreases |hs|
  {
    if hs == [] then list
    else CodingsOf(hs[1..], if Class(hs[0]) == 3 then Listed(list, WrittenValue(hs[0])) else list)
  }

  function Codings(h: Head): bytes {
    CodingsOf(h.headers, [])
  }

  /** Headers without the lines that continue their values. */
  function FirstLines(hs: seq<Header>): seq<Header> {
    if hs == [] then [] else [hs[0].(folds := [])] + FirstLines(hs[1..])
  }

  /** The codings that the parser reads. */
  function ReadCodings(h: Head): bytes {
    CodingsOf(FirstLines(h.headers), [])
  }

  lemma ListedChunked(list: bytes, v: bytes)
    requires v != []
    ensures IsChunked(Listed(list, v)) <==> IsChunked(v)
    ensures Listed(list, v) != []
  {
    LastDecides(list, v);
    hide IsChunked;
  }

  lemma FirstWritten(h: Header)
    ensures WrittenValue(h.(folds := [])) == h.value && Class(h.(folds := [])) == Class(h)
    ensures FoldsBegun(h) ==> (WrittenValue(h) == [] <==> h.value == [])
  {
    hide Lowered, NameClass;
    assert h.value + [] == h.value;
  }

  lemma CodingFlags(k: nat, v: bytes, folds: seq<Fold>, flags: Flags)
    ensures k == 3 && v != [] ==>
              FlagsAfter(k, v, folds, flags) == flags.(transferEncoding := true, chunked := IsChunked(v))
    ensures k != 3 || v == [] ==> SameCoding(flags, FlagsAfter(k, v, folds, flags))
  {
    hide IsChunked, OptionsOf, TokenFlags;
    if k == 1 {
      TokenFlagsKeep(flags, OptionsOf(v, folds));
    } else if k == 2 {
    } else if k == 4 {
    }
  }

  predicate SameCoding(flags: Flags, f: Flags) {
    f.chunked == flags.chunked && f.transferEncoding == flags.transferEncoding
  }

  lemma OneCoding(h: Header, flags: Flags, list: bytes)
    requires (flags.chunked <==> IsChunked(list)) && (flags.transferEncoding <==> list != [])
    ensures var f := FlagsAfter(Class(h), h.value, h.folds, flags);
            var r := if Class(h) == 3 then Listed(list, h.value) else list;
            (f.chunked <==> IsChunked(r)) && (f.transferEncoding <==> r != [])
  {
    CodingFlags(Class(h), h.value, h.folds, flags);
    if h.value != [] {
      ListedChunked(list, h.value);
      hide Listed;
    }
    hide IsChunked, FlagsAfter, Class;
  }

  lemma TokenFlagsKeep(flags: Flags, ts: seq<bytes>)
    ensures SameCoding(flags, TokenFlags(flags, ts))
  {
  }

  /** The flags say whether there are codings, and whether they announce chunks. */
  lemma {:induction false} CodingsFlags(hs: seq<Header>, flags: Flags, list: bytes)
    requires (flags.chunked <==> IsChunked(list)) && (flags.transferEncoding <==> list != [])
    ensures var f, r := FlagsOf(hs, flags), CodingsOf(FirstLines(hs), list);
            (f.chunked <==> IsChunked(r)) && (f.transferEncoding <==> r != [])
    decreases |hs|
  {
    hide IsChunked, FlagsAfter, WrittenValue, Class, Listed;
    if hs != [] {
      var h := hs[0];
      FirstWritten(h);
      OneCoding(h, flags, list);
      assert FirstLines(hs)[0] == h.(folds := []) && FirstLines(hs)[1..] == FirstLines(hs[1..]);
      CodingsFlags(hs[1..], FlagsAfter(Class(h), h.value, h.folds, flags),
                   if Class(h) == 3 then Listed(list, h.value) else list);
    }
  }

  lemma {:induction false} SomeCodings(hs: seq<Header>, list: bytes, first: bytes)
    requires (list == [] <==> first == []) && forall h | h in hs :: FoldsBegun(h)
    ensures CodingsOf(hs, list) == [] <==> CodingsOf(FirstLines(hs), first) == []
    decreases |hs|
  {
    if hs != [] {
      var h := hs[0];
      FirstWritten(h);
      assert FirstLines(hs)[0] == h.(folds := []) && FirstLines(hs)[1..] == FirstLines(hs[1..]);
      hide Class, WrittenValue, FoldsBegun;
      if Class(h) == 3 {
        SomeCodings(hs[1..], Listed(list, WrittenValue(h)), Listed(first, h.value));
      } else {
        SomeCodings(hs[1..], list, first);
      }
    }
  }

  /** What the flags of a head mean. */
  lemma HeadFlags(h: Head)
    requires HeadOk(h)
    ensures AllFlags(h).chunked <==> IsChunked(ReadCodings(h))
    ensures AllFlags(h).transferEncoding <==> Codings(h) != []
    ensures Codings(h) == [] <==> ReadCodings(h) == []
  {
    HeadContinues(h);
    CodingsFlags(h.headers, NO_FLAGS, []);
    SomeCodings(h.headers, [], []);
    hide FlagsOf, CodingsOf, HeadOk, FoldsBegun;
  }

  // ---- the standard ----

  /** Section 3.3.3 of RFC 7230, for a response. */
  function StandardFraming(isHead: bool, h: Head): Framing {
    if isHead || Bodiless(Code(h)) then Framing.NoBody
    else if Codings(h) != [] then (if LastCoding(Codings(h)) == CHUNKED then Chunks else UntilEof)
    else if AllFlags(h).contentLength then (if Length(h) == 0 then Framing.NoBody else Identity)
    else UntilEof
  }

  /** The code frames the body as the standard asks if and only if a response that can have no body announces none,
      and of any other the codings that are read end in chunked just if the codings that are written do. */
  lemma FramingExact(isHead: bool, h: Head, s: State)
    requires HeadOk(h) && !Switches(h) && KnowsHead(s, isHead, h)
    ensures AfterHeadersComplete(BodyState(s, false)) == StandardFraming(isHead, h) <==>
            || isHead
            || if Bodiless(Code(h)) then Codings(h) == [] && Length(h) == 0
               else IsChunked(ReadCodings(h)) <==> LastCoding(Codings(h)) == CHUNKED
  {
    HeadKnows(h);
    HeadFlags(h);
    NothingListed();
    hide AllFlags, Length, HeadOk, Code, Codings, ReadCodings, IsChunked, LastCoding, Switches;
  }

  lemma NothingListed()
    ensures !IsChunked([]) && LastCoding([]) != CHUNKED
  {
    assert LastPart([]) == [];
  }

  /** No list of codings goes on in another line. */
  predicate CodingsUnfolded(h: Head) {
    forall e | e in h.headers :: Class(e) == 3 ==> e.folds == []
  }

  lemma {:induction false} UnfoldedRead(hs: seq<Header>, list: bytes)
    requires forall e | e in hs :: Class(e) == 3 ==> e.folds == []
    ensures CodingsOf(FirstLines(hs), list) == CodingsOf(hs, list)
    decreases |hs|
  {
    if hs != [] {
      var h := hs[0];
      FirstWritten(h);
      assert h in hs && (Class(h) == 3 ==> h.(folds := []) == h);
      assert FirstLines(hs)[0] == h.(folds := []) && FirstLines(hs)[1..] == FirstLines(hs[1..]);
      assert forall e | e in hs[1..] :: e in hs;
      hide Class, WrittenValue;
      UnfoldedRead(hs[1..], if Class(h) == 3 then Listed(list, WrittenValue(h)) else list);
    }
  }

  /** For lists on one line the codings agree unless a tab, the word again or an empty element follows the word. */
  lemma FramingUnfolded(isHead: bool, h: Head, s: State)
    requires HeadOk(h) && !Switches(h) && KnowsHead(s, isHead, h) && CodingsUnfolded(h)
    ensures var list := Codings(h);
            AfterHeadersComplete(BodyState(s, false)) == StandardFraming(isHead, h) <==>
            || isHead
            || if Bodiless(Code(h)) then list == [] && Length(h) == 0
               else !TabBehind(list) && !WordAgain(list) && !EmptyBehind(list)
  {
    FramingExact(isHead, h, s);
    UnfoldedRead(h.headers, []);
    CodingAgrees(Codings(h));
    hide AllFlags, Length, HeadOk, Code, IsChunked, LastCoding, Switches, TabBehind, WordAgain, EmptyBehind,
         AfterHeadersComplete, StandardFraming, CodingsOf, KnowsHead;
  }

  // ---- what the framing leads to ----

  /** What the code decides, said about the head. */
  lemma FramingIs(isHead: bool, h: Head, s: State)
    requires HeadOk(h) && KnowsHead(s, isHead, h)
    ensures var f := AfterHeadersComplete(BodyState(s, false));
            && (f == Framing.NoBody <==>
                  isHead || (Codings(h) == [] && Length(h) == 0 && (AllFlags(h).contentLength || Bodiless(Code(h)))))
            && (f == UntilEof <==> !isHead && UntilClose(h))
  {
    HeadKnows(h);
    HeadFlags(h);
    hide AllFlags, Length, HeadOk, Code, Codings, ReadCodings, IsChunked;
  }

  /** The body ends with the connection: there are codings that do not end in chunks, or nothing says how long it is. */
  predicate UntilClose(h: Head) {
    if Codings(h) != [] then !IsChunked(ReadCodings(h)) else !AllFlags(h).contentLength && !Bodiless(Code(h))
  }

  lemma BlankApplied(x: Context, h: Head, f: Framing)
    requires x == HeadContext(h)
    ensures var items := [HeadersDone(Length(h), AllFlags(h))] + (if f == Framing.NoBody then [Done] else []);
            ApplyAll(Grow(x, LF), items, |x.buf|) ==
            if f == Framing.NoBody then Completed(BlankContext(h)) else BlankContext(h)
  {
    ItemsApplied(if f == Framing.NoBody then Body.NoBody else Sized([]), x, h);
    hide ApplyAll, BlankContext, HeadContext, AllFlags, Length;
  }

  lemma ItemsOf(t: State)
    requires AfterHeadersComplete(t) != Upgraded && t.error == 0
    ensures Framed(t).1 == (if AfterHeadersComplete(t) == Framing.NoBody then [Done] else []) && Framed(t).0.error == 0
    ensures AfterHeadersComplete(t) == UntilEof ==>
              Framed(t).0 == t.(node := InBody(SpanStartBody2), finish := FINISH_SAFE_WITH_CB)
  {
    hide AfterHeadersComplete, ShouldKeepAlive;
  }

  lemma NotUpgrading(s: State)
    ensures AfterHeadersComplete(BodyState(s, false)) != Upgraded && BodyState(s, false).error == s.error
  {
  }

  /** What a head leads to that does not switch protocols. */
  lemma HeadLeads(isHead: bool, h: Head) returns (s: State)
    requires HeadOk(h) && !Switches(h)
    ensures KnowsHead(s, isHead, h)
    ensures var f := AfterHeadersComplete(BodyState(s, false)); var v := Parsed(isHead, HeadText(h));
            && v == System(Framed(BodyState(s, false)).0,
                           if f == Framing.NoBody then Completed(BlankContext(h)) else BlankContext(h))
            && v.parser.error == 0 && Inv(v.parser)
  {
    hide *;
    s := HeadRun(isHead, h);
    HeadKnows(h);
    KnownHead(s, isHead, h);
    BlankAbsorbed(System(s, HeadContext(h)));
    BlankFraming(s, h);
    NotUpgrading(s);
    var t := BodyState(s, false);
    ItemsOf(t);
    BlankApplied(HeadContext(h), h, AfterHeadersComplete(t));
    ParsedMore(isHead, HeadText(h), []);
  }

  /** A head completes its response if and only if the code gives it no body. */
  lemma HeadCompletes(isHead: bool, h: Head)
    requires HeadOk(h) && !Switches(h)
    ensures var v := Parsed(isHead, HeadText(h));
            && v.parser.error == 0
            && v.context.completions ==
               if isHead || (Codings(h) == [] && Length(h) == 0
                   && (AllFlags(h).contentLength || Bodiless(Code(h)))) then 1 else 0
  {
    hide *;
    var s := HeadLeads(isHead, h);
    FramingIs(isHead, h, s);
    HeadReported(h);
    CompletedAnnounces(BlankContext(h), h);
  }

  /** A response that can have no body is complete with its head, as the standard asks, if and only if it announces
      no body; otherwise the parser waits for one. */
  lemma BodilessComplete(h: Head)
    requires HeadOk(h) && !Switches(h) && Bodiless(Code(h))
    ensures StandardFraming(false, h) == Framing.NoBody
    ensures Parsed(false, HeadText(h)).parser.error == 0
    ensures Parsed(false, HeadText(h)).context.completions == if Codings(h) == [] && Length(h) == 0 then 1 else 0
  {
    HeadCompletes(false, h);
    hide Parsed, Codings, Length, AllFlags, HeadText, HeadOk, Switches;
  }

  /** What completes nothing is never received with success, however long the transport is asked for more. */
  lemma NeverReceived(parser: Parser, t: bytes, offered: nat, status: HTTPStatus, n: nat)
    requires Outcome(parser, t, offered, status, n) && Parsed(parser.data.isHeadResponse, t).context.completions == 0
    ensures status != HTTPSuccess
  {
    hide Parsed, Outcome;
    if status == HTTPSuccess {
      SuccessComplete(parser, t, offered, status, n);
      NotYet(parser.data.isHeadResponse, t, n);
      assert false;
    }
  }

  // ---- a 304 response with a length ----

  const CONTENT_LENGTH_5: Header := Header(CONTENT_LENGTH, [SP], [53], [CR, LF], [])

  /** HTTP/1.1 304 N, content-length: 5, and a blank line. */
  const NOT_MODIFIED: Head := Head(49, 49, [51, 48, 52], [78], [CR, LF], [CONTENT_LENGTH_5], [CR, LF])

  lemma FiveIsLength(flags: Flags)
    requires !flags.contentLength
    ensures HeaderOk(CONTENT_LENGTH_5, flags) && Class(CONTENT_LENGTH_5) == 2
    ensures LengthOfText([53]) == 5
  {
    var v := [53];
    assert v[1..] == [] && DigitCount([]) == 0 && DigitCount(v) == 1;
    assert v[..1] == v && v[1..] == [];
    assert Numeral(10, 0, v) == 5;
    NameIsLength();
    assert [SP][1..] == [] && IsLead([]) && IsLead([SP]);
    hide Numeral, Lowered, NameClass, DigitCount;
  }

  lemma NameIsLength()
    ensures Lowered(CONTENT_LENGTH) == CONTENT_LENGTH && NameClass(CONTENT_LENGTH) == 2 && IsName(CONTENT_LENGTH)
  {
    var w := CONTENT_LENGTH;
    LengthLetters();
    LengthClassKnown();
    hide CONTENT_LENGTH, NameClass;
    forall i | 0 <= i < |w| ensures Lowered(w)[i] == w[i] {
      LowerAt(w, i);
    }
    assert Lowered(w) == w;
  }

  lemma LengthLetters()
    ensures CONTENT_LENGTH != []
            && forall i | 0 <= i < |CONTENT_LENGTH| ::
                ToLower(CONTENT_LENGTH[i]) == CONTENT_LENGTH[i] && IsTchar(CONTENT_LENGTH[i])
  {
    assert CONTENT_LENGTH == [99, 111, 110, 116, 101, 110, 116, 45, 108, 101, 110, 103, 116, 104];
    hide CONTENT_LENGTH;
  }

  lemma LengthClassKnown()
    ensures NameClass(CONTENT_LENGTH) == 2
  {
    assert CONTENT_LENGTH[0] == 99 && CONTENT_LENGTH[3] == 116 && CONNECTION[3] == 110 && PROXY_CONNECTION[0] == 112;
  }

  lemma NotModifiedHead()
    ensures HeadOk(NOT_MODIFIED) && !Switches(NOT_MODIFIED) && Code(NOT_MODIFIED) == 304 && Length(NOT_MODIFIED) == 5
  {
    var h := NOT_MODIFIED;
    FiveIsLength(NO_FLAGS);
    var d := h.code;
    assert d[1..] == [48, 52] && d[1..][1..] == [52] && d[1..][1..][1..] == [];
    assert Numeral(10, 30, [52]) == 304 && Numeral(10, 3, [48, 52]) == 304 && Code(h) == 304;
    assert h.headers[1..] == [] && h.headers[0] == CONTENT_LENGTH_5;
    hide Numeral, HeaderOk, Class, LengthOfText;
    assert StatusOk(h);
    assert HeadersOk(h.headers, NO_FLAGS);
    assert FlagsOf(h.headers, NO_FLAGS) == NO_FLAGS.(contentLength := true);
    assert LengthOf(h.headers, 0) == 5;
  }

  /** The whole 304 response is never complete: it can have no body, but five bytes are waited for. */
  lemma NotModifiedUnfinished()
    ensures HeadOk(NOT_MODIFIED) && Code(NOT_MODIFIED) == 304 && StandardFraming(false, NOT_MODIFIED) == Framing.NoBody
    ensures Parsed(false, HeadText(NOT_MODIFIED)).parser.error == 0
    ensures Parsed(false, HeadText(NOT_MODIFIED)).context.completions == 0
  {
    NotModifiedHead();
    BodilessComplete(NOT_MODIFIED);
    hide HeadOk, Switches, Parsed, HeadText, Length;
  }

  // ---- a 101 response ----

  const CONNECTION_UPGRADE: Header := Header(CONNECTION, [SP], UPGRADE, [CR, LF], [])
  const UPGRADE_X: Header := Header(UPGRADE, [SP], [120], [CR, LF], [])

  /** HTTP/1.1 101 S, connection: upgrade, upgrade: x, and a blank line. */
  const SWITCHING: Head := Head(49, 49, [49, 48, 49], [83], [CR, LF], [CONNECTION_UPGRADE, UPGRADE_X], [CR, LF])

  /** Words in lower case, of which no byte is white space or a comma. */
  lemma PlainWords()
    ensures Lowered(CONNECTION) == CONNECTION && IsName(CONNECTION) && NameClass(CONNECTION) == 1
    ensures Lowered(UPGRADE) == UPGRADE && IsName(UPGRADE) && NameClass(UPGRADE) == 4 && COMMA !in UPGRADE
    ensures !IsBlank(UPGRADE[0]) && UPGRADE[|UPGRADE| - 1] != SP && forall c | c in UPGRADE :: IsValueByte(c)
  {
    var v, w := CONNECTION, UPGRADE;
    ConnectionLetters();
    UpgradeLetters();
    ConnectionClass();
    UpgradeClass();
    hide CONNECTION, UPGRADE, NameClass, IsTchar, IsBlank, IsValueByte;
    forall i | 0 <= i < |v| ensures Lowered(v)[i] == v[i] {
      LowerAt(v, i);
    }
    forall i | 0 <= i < |w| ensures Lowered(w)[i] == w[i] {
      LowerAt(w, i);
    }
    assert Lowered(v) == v && Lowered(w) == w;
  }

  lemma ConnectionLetters()
    ensures CONNECTION != []
    ensures forall i | 0 <= i < |CONNECTION| :: ToLower(CONNECTION[i]) == CONNECTION[i] && IsTchar(CONNECTION[i])
  {
    assert CONNECTION == [99, 111, 110, 110, 101, 99, 116, 105, 111, 110];
    hide CONNECTION;
  }

  lemma UpgradeLetters()
    ensures UPGRADE != [] && forall i | 0 <= i < |UPGRADE| :: ToLower(UPGRADE[i]) == UPGRADE[i] && IsTchar(UPGRADE[i])
    ensures COMMA !in UPGRADE && !IsBlank(UPGRADE[0]) && UPGRADE[|UPGRADE| - 1] != SP
            && forall c | c in UPGRADE :: IsValueByte(c)
  {
    assert UPGRADE == [117, 112, 103, 114, 97, 100, 101];
    hide UPGRADE;
  }

  lemma ConnectionClass()
    ensures NameClass(CONNECTION) == 1
  {
  }

  lemma UpgradeClass()
    ensures NameClass(UPGRADE) == 4
  {
    assert UPGRADE[0] == 117 && CONNECTION[0] == 99 && CONTENT_LENGTH[0] == 99 && PROXY_CONNECTION[0] == 112;
    assert TRANSFER_ENCODING[0] == 116;
  }

  lemma UpgradeOption()
    ensures OptionsOf(UPGRADE, []) == [UPGRADE]
  {
    PlainWords();
    assert [] + UPGRADE + [] == UPGRADE;
    TokensOfOne([], UPGRADE, []);
    hide UPGRADE, Tokens, ListState;
  }

  lemma UpgradeHeaders(flags: Flags)
    ensures HeaderOk(CONNECTION_UPGRADE, flags) && Class(CONNECTION_UPGRADE) == 1
    ensures HeaderOk(UPGRADE_X, flags) && Class(UPGRADE_X) == 4
  {
    PlainWords();
    assert [SP][1..] == [] && IsLead([]) && IsLead([SP]);
    hide CONNECTION, UPGRADE, NameClass, Lowered, IsName, LengthOfText;
  }

  lemma SwitchingFlags()
    ensures HeadersOk(SWITCHING.headers, NO_FLAGS)
    ensures FlagsOf(SWITCHING.headers, NO_FLAGS) == NO_FLAGS.(connectionUpgrade := true, upgrade := true)
    ensures LengthOf(SWITCHING.headers, 0) == 0
  {
    var hs := [CONNECTION_UPGRADE, UPGRADE_X];
    assert SWITCHING.headers == hs && hs[1..] == [UPGRADE_X] && hs[1..][1..] == [];
    UpgradeOption();
    TokensApart();
    var f := NO_FLAGS.(connectionUpgrade := true);
    UpgradeHeaders(NO_FLAGS);
    UpgradeHeaders(f);
    assert UPGRADE != [];
    hide HeaderOk, Class, OptionsOf, CLOSE, KEEP_ALIVE, UPGRADE, LengthOfText;
    assert TokenFlags(NO_FLAGS, [UPGRADE]) == f;
    assert FlagsAfter(1, UPGRADE, [], NO_FLAGS) == f;
    var last := [UPGRADE_X];
    var g := NO_FLAGS.(connectionUpgrade := true, upgrade := true);
    assert last[1..] == [] && FlagsAfter(4, [120], [], f) == g;
    assert FlagsOf([], g) == g && FlagsOf(last, f) == g;
    assert HeadersOk([], g) && HeadersOk(last, f);
    assert LengthOf([], 0) == 0 && LengthOf(last, 0) == 0;
  }

  lemma SwitchingHead()
    ensures HeadOk(SWITCHING) && Switches(SWITCHING) && !AllFlags(SWITCHING).chunked && Length(SWITCHING) == 0
  {
    SwitchingFlags();
    var d := SWITCHING.code;
    assert d[1..] == [48, 49] && d[1..][1..] == [49] && d[1..][1..][1..] == [];
    assert Numeral(10, 10, [49]) == 101 && Numeral(10, 1, [48, 49]) == 101 && Code(SWITCHING) == 101;
    hide Numeral, HeadersOk, FlagsOf, LengthOf;
    assert StatusOk(SWITCHING);
  }

  /** The 101 response is complete, but the call that reads it reports an internal error. */
  lemma SwitchingPaused()
    ensures HeadOk(SWITCHING) && Switches(SWITCHING)
    ensures var v := Parsed(false, HeadText(SWITCHING));
            v.context.completions == 1 && ProcessLlhttpError(v.parser.error) == HTTPParserInternalError
  {
    SwitchingHead();
    hide *;
    SwitchRead(false, SWITCHING);
  }

  // ---- a body that ends with the connection ----

  lemma EofStarts(s: State, c: byte) returns (u: State)
    requires Inv(s) && s.error == 0 && s.node == InBody(SpanStartBody2)
    ensures u == s.(node := InBody(Eof)) && Inv(u) && u.error == 0 && SpanOf(u) == Some(Kind.Body) && SpanOf(s).None?
    ensures Step(s, c) == Out(u, false, []) && forall d :: Step(u, d) == Eat(u, u.node)
  {
    hide Sequence;
    u := s.(node := InBody(Eof));
  }

  /** Bytes of a body that ends with the connection are added to it, and nothing else happens. */
  lemma EofRun(s: State, x: Context, data: bytes)
    requires Cut(s, x, |x.buf|) && s.node == InBody(SpanStartBody2) && data != []
    ensures Inv(s)
    ensures var v := AbsorbAll(System(s, x), data); v.parser == s.(node := InBody(Eof)) && Extended(x, v.context, data)
  {
    hide *;
    CutSystem(s, x);
    OutsideIs(s, x);
    var a := Outside(s, x);
    CutSound(s, x);
    var u := EofStarts(s, data[0]);
    LeadsNowhere(a, data);
    MoveOn(a, data, s, x, data, u);
    OutsideIs(u, x);
    LeadsSound(a, data, Outside(u, x), data);
    StayRun(Outside(u, x), data, []);
    assert data + [] == data;
    FromInside(u, x, |data|);
    var b := Stage(u, After(x, data), |x.buf|);
    LeadsOn(a, data, Outside(u, x), data, b, []);
    LeadsSame(a, data, b, []);
    NothingMore(Virtual(u, After(x, data), |x.buf|));
    VirtualBody(u, x, data);
    PieceExtends(x, data);
  }

  lemma CutSound(s: State, x: Context)
    requires Cut(s, x, |x.buf|)
    ensures Sound(Outside(s, x)) && s.error == 0
  {
    hide Within, Inv, SpanOf;
  }

  lemma EofState(s: State, isHead: bool, h: Head)
    requires KnowsHead(s, isHead, h) && AfterHeadersComplete(BodyState(s, false)) == UntilEof
    ensures Framed(BodyState(s, false)).0.node == InBody(SpanStartBody2) && SpanOf(Framed(BodyState(s, false)).0).None?
  {
    hide AfterHeadersComplete, AllFlags, Length, Code;
  }

  /** A body that ends with the connection: the response holds the head and the data so far, but is never complete,
      since nothing tells the parser that the connection has ended. */
  lemma OpenRead(h: Head, data: bytes)
    requires HeadOk(h) && !Switches(h) && UntilClose(h)
    ensures var v := Parsed(false, HeadText(h) + data);
            && v.parser.error == 0 && v.context.completions == 0 && v.context.parsing == HTTP_PARSING_INCOMPLETE
            && Announces(v.context, h) && BodyText(v.context) == data
  {
    hide *;
    var s := HeadLeads(false, h);
    FramingIs(false, h, s);
    HeadReported(h);
    var x := BlankContext(h);
    if data == [] {
      assert HeadText(h) + data == HeadText(h);
      NoBodyText(x);
    } else {
      EofState(s, false, h);
      ParsedWithin(false, HeadText(h));
      ParsedMore(false, HeadText(h), data);
      var u := Framed(BodyState(s, false)).0;
      EofRun(u, x, data);
      OpenHolds(x, Parsed(false, HeadText(h) + data).context, h, data);
    }
  }

  lemma NoBodyText(x: Context)
    requires x.body.None?
    ensures BodyText(x) == []
  {
  }

  lemma OpenHolds(x: Context, y: Context, h: Head, data: bytes)
    requires Announces(x, h) && x.completions == 0 && x.body.None? && Extended(x, y, data)
    ensures Announces(y, h) && y.completions == 0 && y.parsing == x.parsing && BodyText(y) == data
  {
    hide Reports, AllFlags, Length, Within;
  }

  /** Receiving such a response never succeeds. */
  lemma OpenReceived(parser: Parser, h: Head, data: bytes, offered: nat, status: HTTPStatus, n: nat)
    requires HeadOk(h) && !Switches(h) && UntilClose(h) && !parser.data.isHeadResponse
    requires Outcome(parser, HeadText(h) + data, offered, status, n)
    ensures status != HTTPSuccess
  {
    OpenRead(h, data);
    hide Outcome, HeadText, UntilClose, HeadOk, Switches, Parsed;
    NeverReceived(parser, HeadText(h) + data, offered, status, n);
  }
}
