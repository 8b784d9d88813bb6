/** The head of a response (sections 3.1.2 and 3.2 of RFC 7230) as it is printed, and what the
    automaton and the callbacks read from it. */
module HttpHead {
  import opened Bytes
  import opened Llhttp
  import opened HttpContext
  import opened HttpSpan
  import opened HttpBulk
  import opened HttpReceive
  import opened HttpChunked

  const COLON: byte := 58

  // ---- stages of a run ----

  /** A parser and a response that lag behind the input: the open span has been delivered up to from. */
  datatype Stage = Stage(s: State, x: Context, from: nat)

  predicate Sound(a: Stage) {
    Cut(a.s, a.x, a.from)
  }

  /** Reading t from stage a leads to the same end as reading r from stage b. */
  predicate Leads(a: Stage, t: bytes, b: Stage, r: bytes) {
    && Sound(a) && Sound(b)
    && AbsorbAll(Virtual(a.s, a.x, a.from), t) == AbsorbAll(Virtual(b.s, b.x, b.from), r)
  }

  lemma LeadsOn(a: Stage, t: bytes, b: Stage, r: bytes, c: Stage, q: bytes)
    requires Leads(a, t, b, r) && Leads(b, r, c, q)
    ensures Leads(a, t, c, q)
  {
    hide AbsorbAll, Cut, Virtual, Inv;
  }

  lemma LeadsSound(a: Stage, t: bytes, b: Stage, r: bytes)
    requires Leads(a, t, b, r)
    ensures Sound(a) && Sound(b)
  {
    hide AbsorbAll, Cut, Inv;
  }

  lemma LeadsNowhere(a: Stage, t: bytes)
    requires Sound(a)
    ensures Leads(a, t, a, t)
  {
    hide AbsorbAll, Extent, SpanOf, Within;
  }

  /** The stage after one dispatch. */
  function Next(a: Stage, c: byte): Stage
    requires Sound(a)
  {
    Stage(Step(a.s, c).s, DispatchContext(a.s, a.x, a.from, c), DispatchFrom(a.s, a.x, a.from, c))
  }

  lemma Dispatch(a: Stage, t: bytes)
    requires Sound(a) && t != [] && Step(a.s, t[0]).s.error == 0
    ensures Leads(a, t, Next(a, t[0]), if Step(a.s, t[0]).eaten then t[1..] else t)
  {
    FeedOne(a.s, a.x, a.from, t);
    hide Step, AbsorbAll, Cut, Virtual, DispatchContext, DispatchFrom, Inv;
  }

  function FromOf(s: State, from: nat, end: nat): nat {
    if SpanOf(s).Some? then from else end
  }

  /** A dispatch that leaves its byte in place, without a callback. */
  lemma Move(a: Stage, t: bytes, u: State)
    requires Sound(a) && t != [] && Step(a.s, t[0]) == Out(u, false, []) && u.error == 0
    ensures Leads(a, t, Stage(u, a.x, FromOf(u, a.from, |a.x.buf|)), t)
  {
    Dispatch(a, t);
    hide Step, SpanOf, Cut, Leads;
  }

  /** A byte that is consumed without a callback, or as data of the open span. */
  lemma Take(a: Stage, t: bytes, u: State)
    requires Sound(a) && t != [] && u.error == 0
    requires Step(a.s, t[0]) == Out(u, true, match SpanOf(a.s) case None => [] case Some(k) => [Data(k)])
    ensures Leads(a, t, Stage(u, After(a.x, [t[0]]), FromOf(u, a.from, |a.x.buf| + 1)), t[1..])
  {
    Dispatch(a, t);
    hide Step, SpanOf, Cut, Leads;
    assert Perform(Grow(a.x, t[0]), Step(a.s, t[0]).items, a.from, |a.x.buf|) == Grow(a.x, t[0]);
  }

  lemma OnePerformed(x: Context, it: Item, from: nat, p: nat)
    ensures Perform(x, [it], from, p) == PerformOne(x, it, from, p)
  {
    assert [it][1..] == [];
    hide PerformOne;
  }

  lemma EndPerformed(x: Context, k: Kind, from: nat, p: nat)
    requires from <= p
    ensures Perform(x, [End(k, 0)], from, p) == OnPiece(x, k, from, p - from)
  {
    hide OnPiece, Perform;
    OnePerformed(x, End(k, 0), from, p);
  }

  lemma ClosedContext(s: State, x: Context, from: nat, c: byte, u: State, k: Kind, eaten: bool)
    requires Inv(s) && s.error == 0 && from <= |x.buf| && SpanOf(u).None? && Step(s, c) == Out(u, eaten, [End(k, 0)])
    ensures var y := OnPiece(if eaten then After(x, [c]) else x, k, from, |x.buf| - from);
            DispatchContext(s, x, from, c) == y && DispatchFrom(s, x, from, c) == |y.buf|
  {
    hide Step, SpanOf, OnPiece, Perform, Inv;
    EndPerformed(if eaten then After(x, [c]) else x, k, from, |x.buf|);
  }

  /** The end of the open span, or of an empty header value. */
  lemma Close(a: Stage, t: bytes, u: State, k: Kind, eaten: bool)
    requires Sound(a) && t != [] && u.error == 0 && SpanOf(u).None?
    requires Step(a.s, t[0]) == Out(u, eaten, [End(k, 0)])
    ensures a.from <= |a.x.buf|
    ensures var y := OnPiece(if eaten then After(a.x, [t[0]]) else a.x, k, a.from, |a.x.buf| - a.from);
            Leads(a, t, Stage(u, y, |y.buf|), if eaten then t[1..] else t)
  {
    hide *;
    SoundFrom(a);
    ClosedContext(a.s, a.x, a.from, t[0], u, k, eaten);
    NextIs(a, t[0]);
    Dispatch(a, t);
  }

  lemma NextIs(a: Stage, c: byte)
    requires Sound(a)
    ensures Inv(a.s) && a.s.error == 0
    ensures Next(a, c) == Stage(Step(a.s, c).s, DispatchContext(a.s, a.x, a.from, c), DispatchFrom(a.s, a.x, a.from, c))
  {
    hide Step, DispatchContext, DispatchFrom, Within, SpanOf;
  }

  lemma SoundFrom(a: Stage)
    requires Sound(a)
    ensures a.from <= |a.x.buf| && Inv(a.s) && a.s.error == 0
  {
  }

  /** The rest of a known word. */
  lemma WordTaken(a: Stage, w: bytes, rest: bytes)
    requires Sound(a) && a.s.node.InMatch? && a.s.index == 0 && |w| == |Sequence(a.s.node.word)|
    requires forall j | 0 <= j < |w| :: Folded(FoldingOf(a.s.node.word), w[j]) == Sequence(a.s.node.word)[j]
    requires Matched(a.s, a.s.node.word).error == 0
    ensures Leads(a, w + rest, Stage(Matched(a.s, a.s.node.word), After(a.x, w), FromAfter(a.s, a.x, a.from, |w|)),
                  rest)
  {
    hide *;
    SoundFrom(a);
    SoundIs(a);
    WordsNonEmpty(a.s.node.word);
    var t, m := w + rest, |w| - 1;
    WordContinues(a.s, w);
    assert t[..m] == w[..m] && t[..m + 1] == w && t[m + 1..] == rest && t[m] == w[m];
    MatchFed(a.s, a.x, a.from, t, m, true);
    SettledWord(a.s);
    LeadsIs(a, t, Stage(Matched(a.s, a.s.node.word), After(a.x, w), FromAfter(a.s, a.x, a.from, |w|)), rest);
  }

  lemma WordContinues(s: State, w: bytes)
    requires s.node.InMatch? && s.index == 0 && 0 < |w| == |Sequence(s.node.word)|
    requires forall j | 0 <= j < |w| :: Folded(FoldingOf(s.node.word), w[j]) == Sequence(s.node.word)[j]
    ensures Continues(s, w[..|w| - 1])
  {
    hide Folded, FoldingOf, Sequence;
  }

  lemma SettledWord(s: State)
    requires s.node.InMatch? && s.index == 0
    ensures Settled(s.(index := 0), true) == Matched(s, s.node.word)
  {
    assert s.(index := 0) == s;
    hide Matched;
  }

  lemma SoundIs(a: Stage)
    requires Sound(a)
    ensures Cut(a.s, a.x, a.from)
  {
  }

  lemma LeadsIs(a: Stage, t: bytes, b: Stage, r: bytes)
    requires Cut(a.s, a.x, a.from) && Cut(b.s, b.x, b.from)
    requires Inv(Virtual(a.s, a.x, a.from).parser) && Inv(Virtual(b.s, b.x, b.from).parser)
    requires AbsorbAll(Virtual(a.s, a.x, a.from), t) == AbsorbAll(Virtual(b.s, b.x, b.from), r)
    ensures Leads(a, t, b, r)
  {
    hide AbsorbAll, Virtual, Inv, Cut;
  }

  // ---- the status line ----

  /** A line that continues the value of a header; the white space it starts with belongs to the value. */
  datatype Fold = Fold(text: bytes, eol: bytes)

  /** A header: the white space before the value, in which lines may be folded, is not part of it; value is the
      text on the line where it begins. */
  datatype Header = Header(name: bytes, space: bytes, value: bytes, eol: bytes, folds: seq<Fold>)

  /** A head: its lines, the blank one included, end in a line feed with or without a carriage return. */
  datatype Head = Head(major: byte, minor: byte, code: bytes, reason: bytes, eol: bytes, headers: seq<Header>,
                       blank: bytes)

  predicate IsBreak(e: bytes) {
    e == [LF] || e == [CR, LF]
  }

  predicate IsReason(t: bytes) {
    CR !in t && LF !in t
  }

  predicate StatusOk(h: Head) {
    && IsDecimal(h.major) && IsDecimal(h.minor)
    && Digits(10, h.code) && Numeral(10, 0, h.code) <= 999
    && IsReason(h.reason) && IsBreak(h.eol)
  }

  function VersionText(h: Head): bytes {
    [h.major, 46, h.minor, SP]
  }

  function StatusText(h: Head): bytes {
    HTTP_SLASH + (VersionText(h) + (h.code + ([SP] + (h.reason + h.eol))))
  }

  function Code(h: Head): nat {
    Numeral(10, 0, h.code)
  }

  /** The status code is reported with the reason, and stays 0 when there is none. */
  function ReportedCode(h: Head): nat {
    if h.reason == [] then 0 else Code(h)
  }

  /** Outside a span there is nothing to deliver. */
  function Outside(s: State, x: Context): Stage {
    Stage(s, x, |x.buf|)
  }

  lemma MessageBegins(head: bool, t: bytes)
    requires t != [] && t[0] == 72
    ensures Sound(Outside(Init(head), NEW_CONTEXT))
    ensures Leads(Outside(Init(head), NEW_CONTEXT), t,
                  Outside(Init(head).(node := InMatch(StartRes), finish := FINISH_UNSAFE),
                          NEW_CONTEXT.(parsing := HTTP_PARSING_INCOMPLETE)), t)
  {
    FreshInv(head);
    var a := Outside(Init(head), NEW_CONTEXT);
    assert [Begin][1..] == [];
    Dispatch(a, t);
    hide AbsorbAll, Virtual;
  }

  lemma TakeOutside(s: State, x: Context, t: bytes, u: State)
    requires Sound(Outside(s, x)) && t != [] && u.error == 0 && SpanOf(s).None? && SpanOf(u).None?
    requires Step(s, t[0]) == Out(u, true, [])
    ensures Leads(Outside(s, x), t, Outside(u, After(x, [t[0]])), t[1..])
    ensures Sound(Outside(u, After(x, [t[0]])))
  {
    Take(Outside(s, x), t, u);
    hide Step, SpanOf, AbsorbAll, Cut, Virtual;
  }

  lemma OutsideSound(s: State, x: Context, t: bytes)
    requires Sound(Outside(s, x))
    ensures Inv(s) && s.error == 0 && Leads(Outside(s, x), t, Outside(s, x), t)
  {
    hide AbsorbAll, Within, SpanOf;
  }

  /** One more byte outside a span. */
  lemma TakeOn(a: Stage, t: bytes, s: State, x: Context, r: bytes, u: State)
    requires Leads(a, t, Outside(s, x), r) && r != [] && u.error == 0 && SpanOf(s).None? && SpanOf(u).None?
    requires Inv(s) && s.error == 0 && Step(s, r[0]) == Out(u, true, [])
    ensures Leads(a, t, Outside(u, After(x, [r[0]])), r[1..])
  {
    hide *;
    LeadsSound(a, t, Outside(s, x), r);
    TakeOutside(s, x, r, u);
    LeadsOn(a, t, Outside(s, x), r, Outside(u, After(x, [r[0]])), r[1..]);
  }

  /** A dispatch outside a span that leaves its byte in place; a span may open. */
  lemma MoveOn(a: Stage, t: bytes, s: State, x: Context, r: bytes, u: State)
    requires Leads(a, t, Outside(s, x), r) && r != [] && u.error == 0
    requires Inv(s) && s.error == 0 && Step(s, r[0]) == Out(u, false, [])
    ensures Leads(a, t, Outside(u, x), r)
  {
    hide *;
    LeadsSound(a, t, Outside(s, x), r);
    OutsideIs(s, x);
    OutsideIs(u, x);
    Move(Outside(s, x), r, u);
    FromOutside(u, x);
    LeadsOn(a, t, Outside(s, x), r, Outside(u, x), r);
  }

  /** A dispatch inside a span that leaves its byte in place. */
  lemma MoveIn(a: Stage, t: bytes, b: Stage, r: bytes, u: State)
    requires Leads(a, t, b, r) && r != [] && u.error == 0 && SpanOf(u).Some?
    requires Inv(b.s) && b.s.error == 0 && Step(b.s, r[0]) == Out(u, false, [])
    ensures Leads(a, t, Stage(u, b.x, b.from), r)
  {
    hide *;
    LeadsSound(a, t, b, r);
    Move(b, r, u);
    FromSpan(u, b.from, |b.x.buf|);
    LeadsOn(a, t, b, r, Stage(u, b.x, b.from), r);
  }

  /** A byte of the open span. */
  lemma TakeIn(a: Stage, t: bytes, b: Stage, r: bytes, u: State, k: Kind)
    requires Leads(a, t, b, r) && r != [] && u.error == 0 && SpanOf(b.s) == Some(k) && SpanOf(u).Some?
    requires Inv(b.s) && b.s.error == 0 && Step(b.s, r[0]) == Out(u, true, [Data(k)])
    ensures Leads(a, t, Stage(u, After(b.x, [r[0]]), b.from), r[1..])
  {
    hide *;
    LeadsSound(a, t, b, r);
    Take(b, r, u);
    FromSpan(u, b.from, |b.x.buf| + 1);
    LeadsOn(a, t, b, r, Stage(u, After(b.x, [r[0]]), b.from), r[1..]);
  }

  lemma FromSpan(u: State, from: nat, end: nat)
    requires SpanOf(u).Some?
    ensures FromOf(u, from, end) == from
  {
    hide SpanOf;
  }

  lemma FromOutside(u: State, x: Context)
    ensures FromOf(u, |x.buf|, |x.buf|) == |x.buf|
  {
    hide SpanOf;
  }

  /** The version of the status line. */
  lemma VersionRun(s: State, x: Context, h: Head, rest: bytes)
    requires Sound(Outside(s, x)) && s.node == InLine(ResHttpMajor) && StatusOk(h)
    ensures Leads(Outside(s, x), VersionText(h) + rest,
                  Outside(s.(node := InLine(ResStatusCode), httpMajor := h.major - 48, httpMinor := h.minor - 48,
                             statusCode := 0),
                          After(x, VersionText(h))), rest)
  {
    var t0 := VersionText(h) + rest;
    var t1, t2, t3 := [46, h.minor, SP] + rest, [h.minor, SP] + rest, [SP] + rest;
    VersionBytes(h, rest);
    hide *;
    var a := Outside(s, x);
    OutsideSound(s, x, t0);
    var u0, u1, u2, u3 := VersionSteps(s, h);
    TakeOn(a, t0, s, x, t0, u0);
    TakeOn(a, t0, u0, After(x, [h.major]), t1, u1);
    TakeOn(a, t0, u1, After(After(x, [h.major]), [46]), t2, u2);
    TakeOn(a, t0, u2, After(After(After(x, [h.major]), [46]), [h.minor]), t3, u3);
    VersionJoins(x, h);
  }

  lemma VersionBytes(h: Head, rest: bytes)
    ensures var t := VersionText(h) + rest; t[0] == h.major && t[1..] == [46, h.minor, SP] + rest && t != []
    ensures var t := [46, h.minor, SP] + rest; t[0] == 46 && t[1..] == [h.minor, SP] + rest && t != []
    ensures var t := [h.minor, SP] + rest; t[0] == h.minor && t[1..] == [SP] + rest && t != []
    ensures var t := [SP] + rest; t[0] == SP && t[1..] == rest && t != []
  {
  }

  lemma VersionJoins(x: Context, h: Head)
    ensures After(After(After(After(x, [h.major]), [46]), [h.minor]), [SP]) == After(x, VersionText(h))
  {
    assert x.buf + [h.major] + [46] + [h.minor] + [SP] == x.buf + VersionText(h);
  }

  lemma VersionSteps(s: State, h: Head) returns (u0: State, u1: State, u2: State, u3: State)
    requires Inv(s) && s.error == 0 && s.node == InLine(ResHttpMajor) && StatusOk(h)
    ensures Inv(u0) && Inv(u1) && Inv(u2) && u0.error == 0 && u1.error == 0 && u2.error == 0 && u3.error == 0
    ensures SpanOf(s).None? && SpanOf(u0).None? && SpanOf(u1).None? && SpanOf(u2).None? && SpanOf(u3).None?
    ensures Step(s, h.major) == Out(u0, true, []) && Step(u0, 46) == Out(u1, true, [])
    ensures Step(u1, h.minor) == Out(u2, true, []) && Step(u2, SP) == Out(u3, true, [])
    ensures u3 ==
            s.(node := InLine(ResStatusCode), httpMajor := h.major - 48, httpMinor := h.minor - 48, statusCode := 0)
  {
    hide Sequence, Rank;
    u0 := s.(node := InLine(ResHttpDot), httpMajor := h.major - 48);
    u1 := u0.(node := InLine(ResHttpMinor));
    u2 := u1.(node := InLine(ResHttpEnd), httpMinor := h.minor - 48);
    u3 := u2.(node := InLine(ResStatusCode), statusCode := 0);
  }

  /** Bytes that do not change the state. */
  lemma {:induction false} StayRun(a: Stage, t: bytes, rest: bytes)
    requires Sound(a) && Inv(a.s) && a.s.error == 0
    requires forall c | c in t :: Step(a.s, c) == Eat(a.s, a.s.node)
    ensures Leads(a, t + rest, Stage(a.s, After(a.x, t), FromAfter(a.s, a.x, a.from, |t|)), rest)
    decreases |t|
  {
    hide *;
    SoundIs(a);
    CutVirtual(a.s, a.x, a.from);
    if t == [] {
      assert t + rest == rest;
      LeadsNowhere(a, rest);
    } else {
      var r := t + rest;
      assert r[0] == t[0] && r[1..] == t[1..] + rest && t[0] in t;
      EatsSelf(a.s);
      Take(a, r, a.s);
      var b := Stage(a.s, After(a.x, [t[0]]), FromAfter(a.s, a.x, a.from, 1));
      FromIs(a.s, a.x, a.from);
      LeadsSound(a, r, b, r[1..]);
      assert forall c | c in t[1..] :: c in t;
      StayRun(b, t[1..], rest);
      AfterStep(a.s, a.x, a.from, t);
      LeadsOn(a, r, b, r[1..], Stage(a.s, After(a.x, t), FromAfter(a.s, a.x, a.from, |t|)), rest);
    }
  }

  lemma EatsSelf(s: State)
    ensures Eat(s, s.node) == Out(s, true, match SpanOf(s) case None => [] case Some(k) => [Data(k)])
  {
    hide SpanOf;
  }

  lemma FromIs(s: State, x: Context, from: nat)
    ensures FromAfter(s, x, from, 1) == FromOf(s, from, |x.buf| + 1)
  {
    hide SpanOf;
  }

  lemma CodeStep(s: State, c: byte)
    requires Inv(s) && s.error == 0 && s.node == InLine(ResStatusCode) && IsDecimal(c)
             && s.statusCode * 10 + (c - 48) <= 999
    ensures var u := s.(statusCode := s.statusCode * 10 + (c - 48));
            Step(s, c) == Out(u, true, []) && SpanOf(s).None? && SpanOf(u).None? && u.error == 0 && u.node == s.node
  {
    hide Sequence;
  }

  /** The digits of the status code. */
  lemma {:induction false} CodeRun(s: State, x: Context, d: bytes, rest: bytes)
    requires Sound(Outside(s, x)) && s.node == InLine(ResStatusCode) && Digits(10, d)
             && Numeral(10, s.statusCode, d) <= 999
    ensures Leads(Outside(s, x), d + rest, Outside(s.(statusCode := Numeral(10, s.statusCode, d)), After(x, d)), rest)
    decreases |d|
  {
    hide Sound, Leads, Step, SpanOf, Inv;
    OutsideSound(s, x, d + rest);
    if d == [] {
      assert d + rest == rest && After(x, d) == x;
      assert s.(statusCode := Numeral(10, s.statusCode, d)) == s;
    } else {
      var r := d + rest;
      assert r[0] == d[0] && r[1..] == d[1..] + rest;
      var n := s.statusCode * 10 + (d[0] - 48);
      assert DigitValue(10, d[0]) < 10;
      NumeralGrows(10, n, d[1..]);
      CodeStep(s, d[0]);
      var u := s.(statusCode := n);
      TakeOutside(s, x, r, u);
      CodeRun(u, After(x, [d[0]]), d[1..], rest);
      AfterTwice(x, [d[0]], d[1..]);
      assert [d[0]] + d[1..] == d;
      LeadsOn(Outside(s, x), r, Outside(u, After(x, [d[0]])), r[1..],
              Outside(s.(statusCode := Numeral(10, n, d[1..])), After(x, d)), rest);
    }
  }

  lemma StatusStarts(s: State) returns (u: State, v: State)
    requires Inv(s) && s.error == 0 && s.node == InLine(ResStatusCode)
    ensures Inv(u) && Inv(v) && u.error == 0 && v.error == 0 && SpanOf(u).None? && SpanOf(v).None?
    ensures Step(s, SP) == Out(u, false, []) && Step(u, SP) == Out(v, true, [])
    ensures v == s.(node := InLine(ResStatusStart))
  {
    hide Sequence;
    u := s.(node := InLine(ResStatusCodeOtherwise));
    v := s.(node := InLine(ResStatusStart));
  }

  lemma NoReason(s: State) returns (u: State, v: State)
    requires Inv(s) && s.error == 0 && s.node == InLine(ResStatusStart)
    ensures Inv(u) && Inv(v) && u.error == 0 && v.error == 0 && SpanOf(s).None? && SpanOf(u).None? && SpanOf(v).None?
    ensures Step(s, CR) == Out(u, true, []) && Step(u, LF) == Out(v, true, []) && Step(s, LF) == Out(v, true, [])
    ensures v == s.(node := InField(HeaderFieldStart))
  {
    hide Sequence;
    u := s.(node := InLine(ResLineAlmostDone));
    v := s.(node := InField(HeaderFieldStart));
  }

  lemma ReasonStarts(s: State, c: byte) returns (u: State, v: State)
    requires Inv(s) && s.error == 0 && s.node == InLine(ResStatusStart) && c != CR && c != LF
    ensures Inv(u) && Inv(v) && u.error == 0 && v.error == 0
    ensures Step(s, c) == Out(u, false, []) && Step(u, c) == Out(v, false, [])
    ensures v == s.(node := InLine(ResStatus)) && SpanOf(v) == Some(Status(s.statusCode))
    ensures forall d | d != CR && d != LF :: Step(v, d) == Eat(v, v.node)
  {
    hide Sequence;
    u := s.(node := InLine(SpanStartStatus));
    v := s.(node := InLine(ResStatus));
  }

  lemma ReasonEnds(s: State) returns (u: State, v: State)
    requires Inv(s) && s.error == 0 && s.node == InLine(ResStatus)
    ensures Inv(u) && Inv(v) && u.error == 0 && v.error == 0 && SpanOf(u).None? && SpanOf(v).None?
    ensures Step(s, CR) == Out(u, true, [End(Status(s.statusCode), 0)]) && Step(u, LF) == Out(v, true, [])
    ensures Step(s, LF) == Out(v, true, [End(Status(s.statusCode), 0)])
    ensures v == s.(node := InField(HeaderFieldStart))
  {
    hide Sequence;
    u := s.(node := InLine(ResLineAlmostDone));
    v := s.(node := InField(HeaderFieldStart));
  }

  /** A byte that closes the open span. */
  lemma CloseOn(a: Stage, t: bytes, b: Stage, r: bytes, u: State, k: Kind)
    requires Leads(a, t, b, r) && r != [] && u.error == 0 && SpanOf(u).None?
    requires Inv(b.s) && b.s.error == 0 && Step(b.s, r[0]) == Out(u, true, [End(k, 0)])
    ensures b.from <= |b.x.buf|
            && Leads(a, t, Outside(u, OnPiece(After(b.x, [r[0]]), k, b.from, |b.x.buf| - b.from)), r[1..])
  {
    hide *;
    LeadsSound(a, t, b, r);
    Close(b, r, u, k, true);
    OutsideIs(u, OnPiece(After(b.x, [r[0]]), k, b.from, |b.x.buf| - b.from));
    LeadsOn(a, t, b, r, Outside(u, OnPiece(After(b.x, [r[0]]), k, b.from, |b.x.buf| - b.from)), r[1..]);
  }

  lemma OutsideIs(s: State, x: Context)
    ensures Outside(s, x) == Stage(s, x, |x.buf|)
  {
  }

  function Reasoned(x: Context, code: nat, reason: bytes, eol: bytes): Context {
    After(if reason == [] then x else OnStatus(x, code), [SP] + (reason + eol))
  }

  lemma LineBreak(rest: bytes)
    ensures var t := [CR, LF] + rest; t != [] && t[0] == CR && t[1..] == [LF] + rest
    ensures var t := [LF] + rest; t != [] && t[0] == LF && t[1..] == rest
  {
  }

  /** A line ends in a carriage return or a line feed. */
  lemma BreakStarts(eol: bytes, rest: bytes)
    requires IsBreak(eol)
    ensures eol == [LF] || eol == [CR, LF]
    ensures eol + rest != [] && ((eol + rest)[0] == CR || (eol + rest)[0] == LF)
  {
  }

  lemma FirstOf(c: byte, t: bytes)
    ensures [c] + t != [] && ([c] + t)[0] == c && ([c] + t)[1..] == t
  {
  }

  lemma FirstIn(t: bytes, rest: bytes)
    ensures t == [] ==> t + rest == rest
    ensures t != [] ==> t + rest != [] && (t + rest)[0] == t[0]
  {
  }

  /** An empty reason phrase, and the end of the line. */
  lemma NoReasonRun(a: Stage, t: bytes, s: State, x: Context, eol: bytes, rest: bytes)
    requires Leads(a, t, Outside(s, x), eol + rest) && Inv(s) && s.error == 0 && s.node == InLine(ResStatusStart)
             && IsBreak(eol)
    ensures Leads(a, t, Outside(s.(node := InField(HeaderFieldStart)), After(x, eol)), rest)
  {
    hide *;
    LineBreak(rest);
    BreakStarts(eol, rest);
    var u, v := NoReason(s);
    if eol == [LF] {
      TakeOn(a, t, s, x, eol + rest, v);
    } else {
      TakeOn(a, t, s, x, eol + rest, u);
      TakeOn(a, t, u, After(x, [CR]), [LF] + rest, v);
      BreakJoins(x);
    }
  }

  lemma BreakJoins(x: Context)
    ensures After(After(x, [CR]), [LF]) == After(x, [CR, LF])
  {
    assert x.buf + [CR] + [LF] == x.buf + [CR, LF];
  }

  /** The end of a reason phrase and of its line. */
  lemma ReasonStops(a: Stage, t: bytes, b: Stage, eol: bytes, rest: bytes)
    requires Leads(a, t, b, eol + rest) && Inv(b.s) && b.s.error == 0 && b.s.node == InLine(ResStatus) && IsBreak(eol)
    ensures b.from <= |b.x.buf|
    ensures Leads(a, t, Outside(b.s.(node := InField(HeaderFieldStart)), OnStatus(After(b.x, eol), b.s.statusCode)),
                  rest)
  {
    hide *;
    LineBreak(rest);
    BreakStarts(eol, rest);
    var k := Status(b.s.statusCode);
    var u, v := ReasonEnds(b.s);
    if eol == [LF] {
      CloseOn(a, t, b, eol + rest, v, k);
    } else {
      CloseOn(a, t, b, eol + rest, u, k);
      TakeOn(a, t, u, OnPiece(After(b.x, [CR]), k, b.from, |b.x.buf| - b.from), [LF] + rest, v);
    }
    StatusPiece(b.x, b.s.statusCode, b.from, |b.x.buf| - b.from);
  }

  lemma StatusPiece(x: Context, code: nat, from: nat, n: nat)
    ensures After(OnPiece(After(x, [CR]), Status(code), from, n), [LF]) == OnStatus(After(x, [CR, LF]), code)
    ensures OnPiece(After(x, [LF]), Status(code), from, n) == OnStatus(After(x, [LF]), code)
  {
    BreakJoins(x);
  }

  /** The reason phrase and the end of the status line. */
  lemma ReasonRun(s: State, x: Context, reason: bytes, eol: bytes, rest: bytes)
    requires Sound(Outside(s, x)) && s.node == InLine(ResStatusCode) && IsReason(reason) && IsBreak(eol)
    ensures Leads(Outside(s, x), [SP] + (reason + (eol + rest)),
                  Outside(s.(node := InField(HeaderFieldStart)), Reasoned(x, s.statusCode, reason, eol)), rest)
  {
    var r := reason + (eol + rest);
    var t := [SP] + r;
    FirstOf(SP, r);
    FirstIn(reason, eol + rest);
    IsReasonOf(reason);
    ReasonJoins(x, s.statusCode, reason, eol);
    hide *;
    var a := Outside(s, x);
    OutsideSound(s, x, t);
    var u, v := StatusStarts(s);
    MoveOn(a, t, s, x, t, u);
    TakeOn(a, t, u, x, t, v);
    var y := After(x, [SP]);
    if reason == [] {
      NoReasonRun(a, t, v, y, eol, rest);
    } else {
      var u', v' := ReasonStarts(v, reason[0]);
      MoveOn(a, t, v, y, r, u');
      MoveOn(a, t, u', y, r, v');
      LeadsSound(a, t, Outside(v', y), r);
      StayRun(Outside(v', y), reason, eol + rest);
      OutsideIs(v', y);
      FromInside(v', y, |reason|);
      var b := Stage(v', After(y, reason), |y.buf|);
      LeadsOn(a, t, Outside(v', y), r, b, eol + rest);
      ReasonStops(a, t, b, eol, rest);
    }
  }

  lemma FromInside(s: State, x: Context, n: nat)
    requires SpanOf(s).Some?
    ensures FromAfter(s, x, |x.buf|, n) == |x.buf|
  {
    hide SpanOf;
  }

  lemma IsReasonOf(reason: bytes)
    requires IsReason(reason)
    ensures forall c | c in reason :: c != CR && c != LF
  {
  }

  lemma ReasonJoins(x: Context, code: nat, reason: bytes, eol: bytes)
    ensures reason == [] ==> After(After(x, [SP]), eol) == Reasoned(x, code, reason, eol)
    ensures reason != [] ==> OnStatus(After(After(After(x, [SP]), reason), eol), code) == Reasoned(x, code, reason, eol)
  {
    assert x.buf + [SP] + reason + eol == x.buf + ([SP] + (reason + eol));
    assert reason == [] ==> x.buf + [SP] + eol == x.buf + ([SP] + (reason + eol));
  }

  /** The parser at the start of the first header line. */
  function LineState(head: bool, h: Head): State
    requires StatusOk(h)
  {
    Init(head).(node := InField(HeaderFieldStart), statusCode := Code(h), httpMajor := h.major - 48,
                httpMinor := h.minor - 48, finish := FINISH_UNSAFE)
  }

  function StatusContext(h: Head): Context {
    NEW_CONTEXT.(parsing := HTTP_PARSING_INCOMPLETE, statusCode := ReportedCode(h), buf := StatusText(h))
  }

  lemma StatusTextIs(h: Head, rest: bytes)
    ensures StatusText(h) + rest == HTTP_SLASH + (VersionText(h) + (h.code + ([SP] + (h.reason + (h.eol + rest)))))
  {
    hide VersionText;
    var r := h.reason + h.eol;
    assert r + rest == h.reason + (h.eol + rest);
    assert ([SP] + r) + rest == [SP] + (r + rest);
    assert (h.code + ([SP] + r)) + rest == h.code + (([SP] + r) + rest);
    assert (VersionText(h) + (h.code + ([SP] + r))) + rest == VersionText(h) + ((h.code + ([SP] + r)) + rest);
  }

  lemma SlashWord(s: State)
    requires s.node == InMatch(StartRes) && s.index == 0 && s.error == 0
    ensures HTTP_SLASH == Sequence(StartRes) && |HTTP_SLASH| == |Sequence(StartRes)| && HTTP_SLASH[0] == 72
            && HTTP_SLASH != []
    ensures forall j | 0 <= j < |HTTP_SLASH| ::
             Folded(FoldingOf(s.node.word), HTTP_SLASH[j]) == Sequence(s.node.word)[j]
    ensures Matched(s, StartRes) == s.(node := InLine(ResHttpMajor)) && Matched(s, StartRes).error == 0
    ensures SpanOf(s).None? && SpanOf(Matched(s, StartRes)).None?
  {
  }

  lemma FromPast(s: State, x: Context, t: bytes)
    requires SpanOf(s).None?
    ensures Stage(s, After(x, t), |x.buf| + |t|) == Outside(s, After(x, t))
    ensures FromAfter(s, x, |x.buf|, |t|) == |x.buf| + |t|
  {
    hide SpanOf;
  }

  lemma StatusBuilt(head: bool, h: Head)
    requires StatusOk(h)
    ensures var x := NEW_CONTEXT.(parsing := HTTP_PARSING_INCOMPLETE);
            Reasoned(After(After(After(x, HTTP_SLASH), VersionText(h)), h.code), Code(h), h.reason,
                     h.eol) == StatusContext(h)
  {
    hide VersionText;
    assert [] + HTTP_SLASH + VersionText(h) + h.code + ([SP] + (h.reason + h.eol)) == StatusText(h);
  }

  lemma SlashInit(head: bool, h: Head) returns (s0: State, s1: State, s2: State, s3: State)
    requires StatusOk(h)
    ensures s0 == Init(head).(node := InMatch(StartRes), finish := FINISH_UNSAFE) && s0.index == 0 && s0.error == 0
    ensures s1 == s0.(node := InLine(ResHttpMajor))
    ensures s2 ==
            s1.(node := InLine(ResStatusCode), httpMajor := h.major - 48, httpMinor := h.minor - 48, statusCode := 0)
    ensures s3 == s2.(statusCode := Numeral(10, s2.statusCode, h.code)) && s3.statusCode == Code(h)
    ensures s3.(node := InField(HeaderFieldStart)) == LineState(head, h)
    ensures Numeral(10, s2.statusCode, h.code) <= 999 && Digits(10, h.code) && IsReason(h.reason) && IsBreak(h.eol)
  {
    hide Numeral, Digits;
    s0 := Init(head).(node := InMatch(StartRes), finish := FINISH_UNSAFE);
    s1 := s0.(node := InLine(ResHttpMajor));
    s2 := s1.(node := InLine(ResStatusCode), httpMajor := h.major - 48, httpMinor := h.minor - 48, statusCode := 0);
    s3 := s2.(statusCode := Code(h));
  }

  /** The status line, from the first byte of the response. */
  lemma StatusRun(head: bool, h: Head, rest: bytes)
    requires StatusOk(h)
    ensures Leads(Outside(Init(head), NEW_CONTEXT), StatusText(h) + rest,
                  Outside(LineState(head, h), StatusContext(h)), rest)
  {
    var r3 := [SP] + (h.reason + (h.eol + rest));
    var r2 := h.code + r3;
    var r1 := VersionText(h) + r2;
    var t := HTTP_SLASH + r1;
    StatusTextIs(h, rest);
    StatusBuilt(head, h);
    var x0 := NEW_CONTEXT.(parsing := HTTP_PARSING_INCOMPLETE);
    hide *;
    var s0, s1, s2, s3 := SlashInit(head, h);
    SlashWord(s0);
    var a := Outside(Init(head), NEW_CONTEXT);
    FirstIn(HTTP_SLASH, r1);
    MessageBegins(head, t);
    LeadsSound(a, t, Outside(s0, x0), t);
    OutsideIs(s0, x0);
    WordTaken(Outside(s0, x0), HTTP_SLASH, r1);
    FromPast(s0, x0, HTTP_SLASH);
    FromPast(s1, x0, HTTP_SLASH);
    var x1 := After(x0, HTTP_SLASH);
    LeadsOn(a, t, Outside(s0, x0), t, Outside(s1, x1), r1);
    LeadsSound(a, t, Outside(s1, x1), r1);
    VersionRun(s1, x1, h, r2);
    var x2 := After(x1, VersionText(h));
    LeadsOn(a, t, Outside(s1, x1), r1, Outside(s2, x2), r2);
    LeadsSound(a, t, Outside(s2, x2), r2);
    CodeRun(s2, x2, h.code, r3);
    var x3 := After(x2, h.code);
    LeadsOn(a, t, Outside(s2, x2), r2, Outside(s3, x3), r3);
    LeadsSound(a, t, Outside(s3, x3), r3);
    ReasonRun(s3, x3, h.reason, h.eol, rest);
    LeadsOn(a, t, Outside(s3, x3), r3, Outside(LineState(head, h), StatusContext(h)), rest);
  }
}
