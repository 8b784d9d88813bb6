/** How the automaton reads the value of a header: as text, or as what the name makes of it. */
module HttpHeadValue {
  import opened Bytes
  import opened Llhttp
  import opened HttpContext
  import opened HttpSpan
  import opened HttpBulk
  import opened HttpChunked
  import opened HttpHead
  import opened HttpHeadToken
  import opened HttpHeadCoding

  /** White space in front of a value: lines may be folded before the value begins. */
  predicate IsLead(t: bytes)
    decreases |t|
  {
    || t == []
    || (IsBlank(t[0]) && IsLead(t[1..]))
    || (|t| > 1 && t[0] == LF && IsBlank(t[1]) && IsLead(t[2..]))
    || (|t| > 2 && t[0] == CR && t[1] == LF && IsBlank(t[2]) && IsLead(t[3..]))
  }

  /** The text of a value: what surrounds it is white space. */
  predicate IsText(v: bytes) {
    (forall c | c in v :: IsValueByte(c)) && (v != [] ==> !IsBlank(v[0]))
  }

  /** The digits a length starts with. */
  function DigitCount(v: bytes): (n: nat)
    ensures n <= |v| && Digits(10, v[..n]) && (n < |v| ==> !IsDecimal(v[n]))
  {
    if v != [] && IsDecimal(v[0]) then
      var n := 1 + DigitCount(v[1..]);
      DigitsMore(v, n);
      n
    else 0
  }

  lemma DigitsMore(v: bytes, n: nat)
    requires 0 < n <= |v| && IsDecimal(v[0]) && Digits(10, v[1..][..n - 1])
    ensures Digits(10, v[..n])
  {
    forall i | 0 <= i < n ensures DigitValue(10, v[..n][i]) < 10 {
      if i > 0 {
        assert v[..n][i] == v[1..][..n - 1][i - 1];
      }
    }
  }

  function LengthOfText(v: bytes): nat {
    Numeral(10, 0, v[..DigitCount(v)])
  }

  /** A length: digits, with spaces behind them, for a number of 64 bits. */
  predicate IsLength(v: bytes) {
    DigitCount(v) > 0 && (forall c | c in v[DigitCount(v)..] :: c == SP) && LengthOfText(v) <= MAX_UINT64
  }

  /** The values by the class of the name: any text, but for a length, which must be announced only once;
      flags tells what was announced before. */
  predicate IsValue(k: nat, v: bytes, flags: Flags) {
    IsText(v) && k <= 4 && (k == 2 ==> IsLength(v) && !flags.contentLength)
  }

  /** The connection options of a value and the lines that continue it: each line is a list of its own, but after a
      line whose last option is known, or goes on behind a known one, the others are not read. */
  function OptionsOf(v: bytes, folds: seq<Fold>): seq<bytes>
    decreases |folds|
  {
    var ts := Tokens([], v);
    if folds == [] || ListState(1, ts) != 1 then ts else ts + OptionsOf(folds[0].text, folds[1..])
  }

  /** What a value announces; of a list of codings only the first line counts. */
  function FlagsAfter(k: nat, v: bytes, folds: seq<Fold>, flags: Flags): Flags {
    if v == [] then flags
    else if k == 1 then TokenFlags(flags, OptionsOf(v, folds))
    else if k == 2 then flags.(contentLength := true)
    else if k == 3 then flags.(transferEncoding := true, chunked := IsChunked(v))
    else if k == 4 then flags.(upgrade := true)
    else flags
  }

  function LengthAfter(k: nat, v: bytes, n: nat): nat {
    if k == 2 then LengthOfText(v) else n
  }

  /** u is the parser at the start of the line after the value v and the lines that continue it. */
  predicate ValueDone(s: State, u: State, v: bytes, folds: seq<Fold>) {
    u == s.(node := InField(HeaderFieldStart), flags := FlagsAfter(s.headerState, v, folds, s.flags),
            contentLength := LengthAfter(s.headerState, v, s.contentLength), headerState := u.headerState)
  }

  // ---- the end of a value ----

  lemma ValueCloses(s: State) returns (u: State, v: State)
    requires Inv(s) && s.error == 0 && s.node == AtEdge(HeaderValueOtherwise)
    ensures Inv(u) && Inv(v) && u.error == 0 && v.error == 0 && SpanOf(u).None? && SpanOf(v).None?
            && SpanOf(s) == Some(Value)
    ensures Step(s, CR) == Out(u, true, [End(Value, 0)]) && Step(u, LF) == Out(v, true, [])
            && Step(s, LF) == Out(u, false, [End(Value, 0)])
    ensures v == s.(node := AtEdge(HeaderValueLws))
  {
    hide Sequence;
    u := s.(node := AtEdge(HeaderValueAlmostDone));
    v := s.(node := AtEdge(HeaderValueLws));
  }

  lemma LineStarts(s: State, c: byte)
    requires Inv(s) && s.error == 0 && s.node == AtEdge(HeaderValueLws) && c != SP && c != TAB
    ensures Step(s, c) == Out(WithStateFlag(s).(node := InField(HeaderFieldStart)), false, [])
            && WithStateFlag(s).error == 0
  {
    hide Sequence;
  }

  /** The state at the start of the next line. */
  function Settle(e: State): State {
    WithStateFlag(e.(node := AtEdge(HeaderValueLws))).(node := InField(HeaderFieldStart))
  }

  /** From the end of a value to the start of the next line, which may continue it. */
  lemma ValueBreaks(a: Stage, t: bytes, b: Stage, eol: bytes, rest: bytes)
    requires Leads(a, t, b, eol + rest) && Inv(b.s) && b.s.error == 0 && b.s.node == AtEdge(HeaderValueOtherwise)
             && IsBreak(eol)
    ensures b.from <= |b.x.buf|
    ensures Leads(a, t,
                  Outside(b.s.(node := AtEdge(HeaderValueLws)),
                          OnHeaderValue(After(b.x, eol), b.from, |b.x.buf| - b.from)), rest)
  {
    hide *;
    LineBreak(rest);
    BreakStarts(eol, rest);
    var r := eol + rest;
    var u, v := ValueCloses(b.s);
    if eol == [LF] {
      CloseBefore(a, t, b, r, u, Value);
      TakeOn(a, t, u, OnPiece(b.x, Value, b.from, |b.x.buf| - b.from), r, v);
    } else {
      CloseOn(a, t, b, r, u, Value);
      TakeOn(a, t, u, OnPiece(After(b.x, [CR]), Value, b.from, |b.x.buf| - b.from), [LF] + rest, v);
    }
    ValuePiece(b.x, b.from, |b.x.buf| - b.from);
  }

  /** The next line is another header. */
  lemma ValueSettles(a: Stage, t: bytes, e: State, x: Context, rest: bytes)
    requires Leads(a, t, Outside(e.(node := AtEdge(HeaderValueLws)), x), rest) && rest != [] && rest[0] != SP
             && rest[0] != TAB
    ensures Leads(a, t, Outside(Settle(e), x), rest)
  {
    hide *;
    var v := e.(node := AtEdge(HeaderValueLws));
    LeadsSound(a, t, Outside(v, x), rest);
    OutsideSound(v, x, []);
    LineStarts(v, rest[0]);
    SettleIs(e);
    MoveOn(a, t, v, x, rest, Settle(e));
  }

  lemma SettleIs(e: State)
    ensures Settle(e) == WithStateFlag(e.(node := AtEdge(HeaderValueLws))).(node := InField(HeaderFieldStart))
  {
    hide WithStateFlag;
  }

  /** A byte before which the open span is closed. */
  lemma CloseBefore(a: Stage, t: bytes, b: Stage, r: bytes, u: State, k: Kind)
    requires Leads(a, t, b, r) && r != [] && u.error == 0 && SpanOf(u).None?
    requires Inv(b.s) && b.s.error == 0 && Step(b.s, r[0]) == Out(u, false, [End(k, 0)])
    ensures b.from <= |b.x.buf| && Leads(a, t, Outside(u, OnPiece(b.x, k, b.from, |b.x.buf| - b.from)), r)
  {
    hide *;
    LeadsSound(a, t, b, r);
    Close(b, r, u, k, false);
    OutsideIs(u, OnPiece(b.x, k, b.from, |b.x.buf| - b.from));
    LeadsOn(a, t, b, r, Outside(u, OnPiece(b.x, k, b.from, |b.x.buf| - b.from)), r);
  }

  lemma ValuePiece(x: Context, from: nat, n: nat)
    ensures After(OnPiece(After(x, [CR]), Value, from, n), [LF]) == OnHeaderValue(After(x, [CR, LF]), from, n)
    ensures After(OnPiece(x, Value, from, n), [LF]) == OnHeaderValue(After(x, [LF]), from, n)
  {
    BreakJoins(x);
  }

  // ---- plain values ----

  lemma PlainStep(s: State)
    requires Inv(s) && s.error == 0 && s.node == InValue(HeaderValue)
    ensures forall c | IsValueByte(c) :: Step(s, c) == Eat(s, s.node)
    ensures var u := s.(node := AtEdge(HeaderValueOtherwise));
            Inv(u) && u.error == 0 && forall c | c == CR || c == LF :: Step(s, c) == Out(u, false, [])
    ensures SpanOf(s).Some? && SpanOf(s.(node := AtEdge(HeaderValueOtherwise))).Some?
  {
    hide Sequence;
  }

  lemma PlainRun(a: Stage, t: bytes, b: Stage, v: bytes, after: bytes)
    requires Leads(a, t, b, v + after) && Inv(b.s) && b.s.error == 0 && b.s.node == InValue(HeaderValue)
    requires (forall c | c in v :: IsValueByte(c)) && after != [] && (after[0] == CR || after[0] == LF)
             && b.from == |b.x.buf|
    ensures Leads(a, t, Stage(b.s.(node := AtEdge(HeaderValueOtherwise)), After(b.x, v), b.from), after)
  {
    hide *;
    PlainStep(b.s);
    LeadsSound(a, t, b, v + after);
    StayRun(b, v, after);
    FromInside(b.s, b.x, |v|);
    var m := Stage(b.s, After(b.x, v), b.from);
    LeadsOn(a, t, b, v + after, m, after);
    MoveIn(a, t, m, after, b.s.(node := AtEdge(HeaderValueOtherwise)));
  }

  // ---- lengths ----

  lemma LengthDigit(s: State, c: byte)
    requires Inv(s) && s.error == 0 && s.node == InValue(HeaderValueContentLength) && IsDecimal(c)
    requires s.contentLength * 10 + (c - 48) <= MAX_UINT64
    ensures var u := s.(contentLength := s.contentLength * 10 + (c - 48));
            Step(s, c) == Out(u, true, [Data(Value)]) && Inv(u) && u.error == 0 && SpanOf(s) == Some(Value)
            && SpanOf(u) == Some(Value)
  {
    MulAddExact(s.contentLength, 10, c - 48);
    hide Sequence, MulAdd;
  }

  lemma {:induction false} LengthRun(a: Stage, t: bytes, b: Stage, v: bytes, after: bytes)
    requires Leads(a, t, b, v + after) && Inv(b.s) && b.s.error == 0 && b.s.node == InValue(HeaderValueContentLength)
    requires Digits(10, v) && Numeral(10, b.s.contentLength, v) <= MAX_UINT64
    ensures var u := b.s.(contentLength := Numeral(10, b.s.contentLength, v));
            Leads(a, t, Stage(u, After(b.x, v), b.from), after) && Inv(u)
    decreases |v|
  {
    hide Leads, Step, Inv, SpanOf;
    if v == [] {
      assert v + after == after && After(b.x, v) == b.x;
      assert b.s.(contentLength := Numeral(10, b.s.contentLength, v)) == b.s;
      assert b == Stage(b.s, b.x, b.from);
    } else {
      var r := v + after;
      assert r[0] == v[0] && r[1..] == v[1..] + after;
      var n := b.s.contentLength * 10 + (v[0] - 48);
      assert DigitValue(10, v[0]) < 10;
      NumeralGrows(10, n, v[1..]);
      LengthDigit(b.s, v[0]);
      var u := b.s.(contentLength := n);
      TakeIn(a, t, b, r, u, Value);
      LengthRun(a, t, Stage(u, After(b.x, [v[0]]), b.from), v[1..], after);
      AfterTwice(b.x, [v[0]], v[1..]);
      assert [v[0]] + v[1..] == v;
    }
  }

  lemma LengthStop(s: State, c: byte) returns (u: State, v: State)
    requires Inv(s) && s.error == 0 && s.node == InValue(HeaderValueContentLength) && !IsDecimal(c)
    ensures Inv(u) && Inv(v) && u.error == 0 && v.error == 0 && SpanOf(u).Some? && SpanOf(v).Some?
    ensures Step(s, c) == Out(u, false, []) && Step(u, SP) == Eat(u, u.node)
    ensures forall c | c == CR || c == LF :: Step(u, c) == Out(v, false, [])
    ensures v == s.(node := AtEdge(HeaderValueOtherwise), flags := s.flags.(contentLength := true))
  {
    hide Sequence;
    u := s.(node := InValue(HeaderValueContentLengthWs));
    v := s.(node := AtEdge(HeaderValueOtherwise), flags := s.flags.(contentLength := true));
  }

  /** The digits of a length, the spaces behind them, and its end. */
  lemma LengthTextRun(a: Stage, t: bytes, b: Stage, v: bytes, after: bytes)
    requires Leads(a, t, b, v + after) && Inv(b.s) && b.s.error == 0 && b.s.node == InValue(HeaderValueContentLength)
    requires b.s.contentLength == 0 && IsLength(v) && after != [] && (after[0] == CR || after[0] == LF)
    ensures var e := b.s.(node := AtEdge(HeaderValueOtherwise), contentLength := LengthOfText(v),
                         flags := b.s.flags.(contentLength := true));
            Inv(e) && e.error == 0 && Leads(a, t, Stage(e, After(b.x, v), b.from), after)
  {
    hide *;
    var n := DigitCount(v);
    var d, sp := v[..n], v[n..];
    LengthParts(v, after);
    LengthRun(a, t, b, d, sp + after);
    var m := b.s.(contentLength := LengthOfText(v));
    var y := After(b.x, d);
    var r := sp + after;
    NoDigit(v, after);
    var u, e := LengthStop(m, r[0]);
    MoveIn(a, t, Stage(m, y, b.from), r, u);
    StayIn(a, t, Stage(u, y, b.from), sp, after);
    AfterTwice(b.x, d, sp);
    assert d + sp == v;
    MoveIn(a, t, Stage(u, After(y, sp), b.from), after, e);
  }

  lemma LengthParts(v: bytes, after: bytes)
    requires IsLength(v)
    ensures var n := DigitCount(v);
            && v + after == v[..n] + (v[n..] + after) && Digits(10, v[..n])
            && Numeral(10, 0, v[..n]) == LengthOfText(v) <= MAX_UINT64
            && (forall c | c in v[n..] :: c == SP)
  {
    hide Digits, Numeral;
    assert v == v[..DigitCount(v)] + v[DigitCount(v)..];
  }

  lemma NoDigit(v: bytes, after: bytes)
    requires IsLength(v) && after != [] && (after[0] == CR || after[0] == LF)
    ensures var r := v[DigitCount(v)..] + after; r != [] && !IsDecimal(r[0])
  {
    var n := DigitCount(v);
    hide Digits, Numeral;
    if n < |v| {
      assert v[n] in v[n..];
    }
  }

  /** Bytes inside a span that do not change the state. */
  lemma StayIn(a: Stage, t: bytes, b: Stage, v: bytes, after: bytes)
    requires Leads(a, t, b, v + after) && Inv(b.s) && b.s.error == 0 && SpanOf(b.s).Some?
    requires forall c | c in v :: Step(b.s, c) == Eat(b.s, b.s.node)
    ensures Leads(a, t, Stage(b.s, After(b.x, v), b.from), after)
  {
    hide *;
    LeadsSound(a, t, b, v + after);
    StayRun(b, v, after);
    FromKept(b.s, b.x, b.from, |v|);
    LeadsOn(a, t, b, v + after, Stage(b.s, After(b.x, v), b.from), after);
  }

  lemma FromKept(s: State, x: Context, from: nat, n: nat)
    requires SpanOf(s).Some?
    ensures FromAfter(s, x, from, n) == from
  {
    hide SpanOf;
  }

  // ---- the start of a value ----

  /** How a value is read that is not empty. */
  function Begun(s: State): State {
    if s.headerState == 1 then s.(node := InValue(HeaderValueConnection))
    else if s.headerState == 2 then s.(node := InValue(HeaderValueContentLength))
    else if s.headerState == 3 then
      s.(node := InMatch(HeaderValueTeChunked), flags := s.flags.(transferEncoding := true, chunked := false))
    else if s.headerState == 4 then
      s.(node := InValue(HeaderValue), flags := s.flags.(upgrade := true), headerState := 0)
    else s.(node := InValue(HeaderValue))
  }

  lemma ValueStarts(s: State, c: byte) returns (u: State, v: State)
    requires Inv(s) && s.error == 0 && s.node == AtEdge(HeaderValueDiscardWs) && !IsBlank(c) && c != CR && c != LF
    requires s.headerState == 2 ==> !s.flags.contentLength
    ensures Inv(u) && u.error == 0 && Inv(v) && v.error == 0 && v == Begun(s)
    ensures Step(s, c) == Out(u, false, []) && Step(u, c) == Out(v, false, [])
  {
    WordsNonEmpty(HeaderValueTeChunked);
    hide Sequence;
    u := s.(node := AtEdge(SpanStartHeaderValue1));
    v := Begun(s);
  }

  lemma SpaceSteps(s: State) returns (u: State, v: State)
    requires Inv(s) && s.error == 0 && s.node == AtEdge(HeaderValueDiscardWs)
    ensures (forall c | IsBlank(c) :: Step(s, c) == Out(s, true, [])) && SpanOf(s).None?
    ensures Inv(u) && Inv(v) && u.error == 0 && v.error == 0 && SpanOf(u).None? && SpanOf(v).None?
    ensures Step(s, CR) == Out(u, true, []) && Step(u, LF) == Out(v, true, []) && Step(s, LF) == Out(v, true, [])
    ensures forall c | IsBlank(c) :: Step(v, c) == Out(s, true, [])
  {
    hide Sequence;
    u := s.(node := AtEdge(HeaderValueDiscardWsAlmostDone));
    v := s.(node := AtEdge(HeaderValueDiscardLws));
  }

  /** The line break and the blank of a line folded before the value. */
  lemma GapRun(a: Stage, t: bytes, s: State, x: Context, eol: bytes, c: byte, r: bytes)
    requires Leads(a, t, Outside(s, x), eol + ([c] + r)) && Inv(s) && s.error == 0
             && s.node == AtEdge(HeaderValueDiscardWs)
    requires IsBreak(eol) && IsBlank(c)
    ensures Leads(a, t, Outside(s, After(x, eol + [c])), r)
  {
    hide *;
    var after := [c] + r;
    LineBreak(after);
    BreakStarts(eol, after);
    FirstOf(c, r);
    var u, v := SpaceSteps(s);
    if eol == [LF] {
      TakeOn(a, t, s, x, eol + after, v);
    } else {
      TakeOn(a, t, s, x, eol + after, u);
      TakeOn(a, t, u, After(x, [CR]), [LF] + after, v);
      BreakJoins(x);
    }
    TakeOn(a, t, v, After(x, eol), after, s);
    AfterTwice(x, eol, [c]);
  }

  /** How white space begins: with a blank, or with a line break and a blank. */
  lemma LeadCases(space: bytes, r: bytes) returns (eol: bytes, c: byte, q: bytes)
    requires IsLead(space) && space != []
    ensures (eol == [] || IsBreak(eol)) && IsBlank(c) && IsLead(q) && space == (eol + [c]) + q && |q| < |space|
    ensures space + r == eol + ([c] + (q + r)) && (eol == [] ==> space + r == [c] + (q + r))
  {
    hide IsBlank;
    if IsBlank(space[0]) && IsLead(space[1..]) {
      eol, c, q := [], space[0], space[1..];
      assert [] + [c] == [c];
    } else if space[0] == LF {
      eol, c, q := [LF], space[1], space[2..];
    } else {
      eol, c, q := [CR, LF], space[2], space[3..];
    }
    hide IsLead;
    assert space == (eol + [c]) + q;
    assert space + r == eol + ([c] + (q + r));
  }

  lemma {:induction false} SpaceRun(a: Stage, t: bytes, s: State, x: Context, space: bytes, r: bytes)
    requires Leads(a, t, Outside(s, x), space + r) && s.node == AtEdge(HeaderValueDiscardWs) && IsLead(space)
    ensures Inv(s) && s.error == 0 && Leads(a, t, Outside(s, After(x, space)), r)
    decreases |space|
  {
    hide *;
    LeadsSound(a, t, Outside(s, x), space + r);
    OutsideSound(s, x, []);
    if space == [] {
      NothingLeads(x, r);
    } else {
      var eol, c, q := LeadCases(space, r);
      if eol == [] {
        var u, v := SpaceSteps(s);
        FirstOf(c, q + r);
        TakeOn(a, t, s, x, space + r, s);
        assert eol + [c] == [c];
      } else {
        GapRun(a, t, s, x, eol, c, q + r);
      }
      SpaceRun(a, t, s, After(x, eol + [c]), q, r);
      AfterTwice(x, eol + [c], q);
    }
  }

  lemma NothingLeads(x: Context, r: bytes)
    ensures After(x, []) == x && [] + r == r
  {
  }

  lemma NothingCloses(s: State, c: byte) returns (u: State, v: State, w: State, z: State)
    requires Inv(s) && s.error == 0 && s.node == AtEdge(HeaderValueDiscardWs) && c != SP && c != TAB
    requires s.headerState <= 4 && s.headerState != 2
    ensures Inv(u) && Inv(v) && Inv(w) && u.error == 0 && v.error == 0 && w.error == 0 && z.error == 0
    ensures SpanOf(s).None? && SpanOf(u).None? && SpanOf(v).None? && SpanOf(w).None? && SpanOf(z).None?
    ensures Step(s, CR) == Out(u, true, []) && Step(u, LF) == Out(v, true, []) && Step(s, LF) == Out(v, true, [])
    ensures Step(v, c) == Out(w, false, []) && Step(w, c) == Out(z, false, [End(Value, 0)])
    ensures z == s.(node := InField(HeaderFieldStart))
  {
    hide Sequence;
    u := s.(node := AtEdge(HeaderValueDiscardWsAlmostDone));
    v := s.(node := AtEdge(HeaderValueDiscardLws));
    w := s.(node := AtEdge(SpanStartHeaderValue));
    z := s.(node := InField(HeaderFieldStart));
  }

  /** An empty value, which is reported at the start of the next line. */
  lemma EmptyRun(a: Stage, t: bytes, s: State, x: Context, eol: bytes, rest: bytes)
    requires Leads(a, t, Outside(s, x), eol + rest) && Inv(s) && s.error == 0
             && s.node == AtEdge(HeaderValueDiscardWs) && IsBreak(eol)
    requires rest != [] && rest[0] != SP && rest[0] != TAB && s.headerState <= 4 && s.headerState != 2
    ensures var y := After(x, eol);
            Leads(a, t, Outside(s.(node := InField(HeaderFieldStart)), OnHeaderValue(y, |y.buf|, 0)), rest)
  {
    hide *;
    LineBreak(rest);
    BreakStarts(eol, rest);
    var y := After(x, eol);
    var u, v, w, z := NothingCloses(s, rest[0]);
    if eol == [LF] {
      TakeOn(a, t, s, x, eol + rest, v);
    } else {
      TakeOn(a, t, s, x, eol + rest, u);
      TakeOn(a, t, u, After(x, [CR]), [LF] + rest, v);
      BreakJoins(x);
    }
    MoveOn(a, t, v, y, rest, w);
    OutsideIs(w, y);
    CloseBefore(a, t, Outside(w, y), rest, z, Value);
    EmptyPieceIs(y);
  }

  lemma EmptyPieceIs(y: Context)
    ensures OnPiece(y, Value, |y.buf|, |y.buf| - |y.buf|) == OnHeaderValue(y, |y.buf|, 0)
  {
  }

  // ---- whole values ----

  predicate ValueFits(s: State, v: bytes) {
    && Inv(s) && s.error == 0 && s.node == AtEdge(HeaderValueDiscardWs) && s.headerState <= 4
    && IsValue(s.headerState, v, s.flags) && (s.headerState == 2 ==> s.contentLength == 0)
  }

  /** What the class of the name asks of a value that is not empty. */
  lemma FitsParts(s: State, v: bytes)
    requires ValueFits(s, v) && v != []
    ensures !IsBlank(v[0]) && v[0] != CR && v[0] != LF && forall c | c in v :: IsValueByte(c)
    ensures s.headerState == 2 ==> IsLength(v) && !s.flags.contentLength
    ensures Inv(s) && s.error == 0 && s.node == AtEdge(HeaderValueDiscardWs) && s.headerState <= 4
  {
    assert v[0] in v;
    hide IsLength, Sequence;
  }

  /** Lines that continue the value are read as any text. */
  predicate ReadsOn(hs: nat) {
    hs == 0 || hs >= 5
  }

  /** e is the state at the end of the first line v of a value, which the next line settles or continues. */
  predicate ValueRead(s: State, e: State, v: bytes) {
    && e.node == AtEdge(HeaderValueOtherwise) && e.error == 0 && Inv(e) && ValueDone(s, Settle(e), v, [])
    && (s.headerState == 1 ==> e.headerState == ListState(1, Tokens([], v)))
    && (s.headerState == 2 ==> e.headerState == 2)
    && (s.headerState != 1 && s.headerState != 2 ==> ReadsOn(e.headerState))
  }

  lemma TokensStart(s: State)
    requires Inv(s) && s.error == 0 && s.node == AtEdge(HeaderValueDiscardWs) && s.headerState == 1
    ensures Begun(s) == s.(node := InValue(HeaderValueConnection)) && InToken(Begun(s), [], 1)
  {
    NothingMeansNothing();
    hide Sequence, Means, Trimmed, TokenNumber;
  }

  lemma TokensEnd(s: State, e: State, v: bytes)
    requires Inv(s) && s.headerState == 1 && v != [] && Inv(e) && e.error == 0 && s.index == 0
    requires ListRead(s.(node := InValue(HeaderValueConnection)), e, Tokens([], v), 1)
    ensures ValueRead(s, e, v)
  {
    hide Tokens, TokenFlags, Sequence, Inv, ListState;
    SettledParts(e);
  }

  lemma SettledParts(e: State)
    ensures var u := WithStateFlag(e); u == e.(flags := u.flags, headerState := u.headerState)
    ensures var u := Settle(e);
            u == e.(node := InField(HeaderFieldStart), flags := WithStateFlag(e).flags, headerState := u.headerState)
  {
  }

  lemma CodingsStart(s: State)
    requires Inv(s) && s.error == 0 && s.node == AtEdge(HeaderValueDiscardWs) && s.headerState == 3
    ensures var u := Begun(s);
            && u == s.(node := InMatch(HeaderValueTeChunked),
                       flags := s.flags.(transferEncoding := true, chunked := false))
            && InCoding(u, 0) && s.index == 0
  {
  }

  lemma CodingsDone(s: State, v: bytes)
    requires s.headerState == 3 && v != [] && s.index == 0
    requires var e := CodingsEnd(Begun(s), IsChunked(v)); Inv(e) && e.error == 0
    ensures ValueRead(s, CodingsEnd(Begun(s), IsChunked(v)), v)
  {
    hide IsChunked, Inv;
  }

  lemma LengthDone(s: State, v: bytes)
    requires s.headerState == 2 && v != [] && s.contentLength == 0
    requires var u := Begun(s);
             var e := u.(node := AtEdge(HeaderValueOtherwise), contentLength := LengthOfText(v),
                         flags := u.flags.(contentLength := true));
             Inv(e) && e.error == 0
    ensures var u := Begun(s);
            var e := u.(node := AtEdge(HeaderValueOtherwise), contentLength := LengthOfText(v),
                        flags := u.flags.(contentLength := true));
            ValueRead(s, e, v)
    ensures Begun(s).node == InValue(HeaderValueContentLength) && Begun(s).contentLength == 0
  {
    hide LengthOfText, Inv;
  }

  lemma PlainDone(s: State, v: bytes)
    requires Inv(s) && s.error == 0 && s.node == AtEdge(HeaderValueDiscardWs)
             && (s.headerState == 0 || s.headerState == 4) && v != []
    ensures Begun(s).node == InValue(HeaderValue) && Begun(s).headerState == 0
    ensures ValueRead(s, Begun(s).(node := AtEdge(HeaderValueOtherwise)), v)
  {
    hide Sequence;
  }

  lemma ZeroIndex(s: State)
    requires Inv(s) && s.error == 0 && !s.node.InMatch?
    ensures s.index == 0
  {
    hide Sequence;
  }

  lemma LengthClass(s: State, v: bytes)
    requires ValueFits(s, v) && s.headerState == 2
    ensures s.contentLength == 0 && Begun(s).node == InValue(HeaderValueContentLength) && Begun(s).contentLength == 0
  {
    hide Sequence, IsValue;
  }

  /** The bytes of a value, however they are read. */
  lemma TextRun(a: Stage, t: bytes, s: State, x: Context, v: bytes, after: bytes) returns (e: State)
    requires ValueFits(s, v) && v != [] && Inv(Begun(s)) && Begun(s).error == 0
    requires Leads(a, t, Stage(Begun(s), x, |x.buf|), v + after) && after != [] && (after[0] == CR || after[0] == LF)
    ensures ValueRead(s, e, v) && Leads(a, t, Stage(e, After(x, v), |x.buf|), after)
  {
    hide *;
    FitsParts(s, v);
    var b := Stage(Begun(s), x, |x.buf|);
    ZeroIndex(s) by { EdgeNode(s); }
    if s.headerState == 1 {
      TokensStart(s);
      e := TokensRun(a, t, b, v, after, [], 1);
      TokensEnd(s, e, v);
    } else if s.headerState == 2 {
      LengthClass(s, v);
      LengthTextRun(a, t, b, v, after);
      LengthDone(s, v);
      var u := Begun(s);
      e := u.(node := AtEdge(HeaderValueOtherwise), contentLength := LengthOfText(v),
              flags := u.flags.(contentLength := true));
    } else if s.headerState == 3 {
      CodingsStart(s);
      CodingsRun(a, t, b, v, after, 0);
      ChunkedIs(v);
      e := CodingsEnd(Begun(s), IsChunked(v));
      CodingsDone(s, v);
    } else {
      PlainDone(s, v);
      PlainRun(a, t, b, v, after);
      e := Begun(s).(node := AtEdge(HeaderValueOtherwise));
    }
  }

  lemma EdgeNode(s: State)
    requires s.node == AtEdge(HeaderValueDiscardWs)
    ensures !s.node.InMatch?
  {
  }

  lemma ChunkedIs(v: bytes)
    ensures IsChunked(v) <==> Coding(0, v) == WHOLE
  {
  }

  // ---- folded values ----

  /** Any text that starts with white space. */
  predicate IsFold(f: Fold) {
    f.text != [] && IsBlank(f.text[0]) && (forall c | c in f.text :: IsValueByte(c)) && IsBreak(f.eol)
  }

  /** Only a value that has begun is continued, and never a length, which would be announced twice. */
  predicate FoldsFit(k: nat, v: bytes, folds: seq<Fold>) {
    folds != [] ==> v != [] && k != 2 && forall f | f in folds :: IsFold(f)
  }

  function FoldsText(folds: seq<Fold>): bytes {
    if folds == [] then [] else folds[0].text + (folds[0].eol + FoldsText(folds[1..]))
  }

  /** The length of the text of all lines, their ends not counted. */
  function FoldsLength(folds: seq<Fold>): nat {
    if folds == [] then 0 else |folds[0].text| + FoldsLength(folds[1..])
  }

  /** Every line is reported on its own, where it stands. */
  function FoldsContext(x: Context, folds: seq<Fold>): Context
    decreases |folds|
  {
    if folds == [] then x
    else FoldsContext(OnHeaderValue(After(After(x, folds[0].text), folds[0].eol), |x.buf|, |folds[0].text|), folds[1..])
  }

  lemma FoldOpens(w: State, c: byte) returns (u: State, v: State)
    requires Inv(w) && w.error == 0 && w.node == AtEdge(HeaderValueLws)
             && (w.headerState == 1 || ReadsOn(w.headerState)) && IsBlank(c)
    ensures Inv(u) && u.error == 0 && Inv(v) && v.error == 0 && w.index == 0
    ensures v == w.(node := InValue(if w.headerState == 1 then HeaderValueConnection else HeaderValue))
    ensures Step(w, c) == Out(u, false, []) && Step(u, c) == Out(v, false, [])
    ensures var e := w.(node := AtEdge(HeaderValueOtherwise)); Inv(e) && e.error == 0
  {
    hide Sequence;
    u := w.(node := AtEdge(SpanStartHeaderValue1));
    v := w.(node := InValue(if w.headerState == 1 then HeaderValueConnection else HeaderValue));
  }

  /** u is the parser w after one line more of the value. */
  predicate LineRead(w: State, u: State, text: bytes) {
    && u == w.(headerState := u.headerState, flags := u.flags)
    && (w.headerState != 1 ==> u == w)
    && (w.headerState == 1 ==>
          var ts := Tokens([], text);
          u.headerState == ListState(1, ts) && WithStateFlag(u).flags == TokenFlags(w.flags, ts))
  }

  lemma ListLine(w: State, e: State, text: bytes)
    requires w.headerState == 1 && w.node == AtEdge(HeaderValueLws) && w.index == 0
    requires ListRead(w.(node := InValue(HeaderValueConnection)), e, Tokens([], text), 1)
    ensures e.node == AtEdge(HeaderValueOtherwise) && LineRead(w, e.(node := AtEdge(HeaderValueLws)), text)
  {
    hide Tokens, TokenFlags, ListState;
  }

  lemma ListOpens(w: State)
    requires Inv(w) && w.error == 0 && w.headerState == 1 && w.node == AtEdge(HeaderValueLws)
    ensures InToken(w.(node := InValue(HeaderValueConnection)), [], 1)
  {
    NothingMeansNothing();
    hide Sequence, Means, Trimmed, TokenNumber;
  }

  lemma PlainLine(w: State, text: bytes)
    requires w.headerState != 1
    ensures LineRead(w, w, text)
  {
    hide Tokens, TokenFlags, ListState;
  }

  /** One line that continues a value: its text is a span of its own. */
  lemma FoldRun(a: Stage, t: bytes, w: State, x: Context, f: Fold, rest: bytes) returns (u: State)
    requires Leads(a, t, Outside(w, x), f.text + (f.eol + rest)) && w.node == AtEdge(HeaderValueLws) && IsFold(f)
    requires w.headerState == 1 || ReadsOn(w.headerState)
    ensures LineRead(w, u, f.text)
            && Leads(a, t, Outside(u, OnHeaderValue(After(After(x, f.text), f.eol), |x.buf|, |f.text|)), rest)
  {
    hide *;
    var r := f.eol + rest;
    LeadsSound(a, t, Outside(w, x), f.text + r);
    OutsideSound(w, x, []);
    FoldFacts(f);
    FirstIn(f.text, r);
    BreakStarts(f.eol, rest);
    var m, v := FoldOpens(w, f.text[0]);
    MoveOn(a, t, w, x, f.text + r, m);
    MoveOn(a, t, m, x, f.text + r, v);
    OutsideIs(v, x);
    var y, e := After(x, f.text), w.(node := AtEdge(HeaderValueOtherwise));
    if w.headerState == 1 {
      ListOpens(w);
      e := TokensRun(a, t, Stage(v, x, |x.buf|), f.text, r, [], 1);
      ListLine(w, e, f.text);
    } else {
      PlainRun(a, t, Stage(v, x, |x.buf|), f.text, r);
      PlainLine(w, f.text);
    }
    u := e.(node := AtEdge(HeaderValueLws));
    ValueBreaks(a, t, Stage(e, y, |x.buf|), f.eol, rest);
    AfterLength(x, f.text);
  }

  lemma AfterLength(x: Context, t: bytes)
    ensures |After(x, t).buf| - |x.buf| == |t|
  {
  }

  lemma FoldFacts(f: Fold)
    requires IsFold(f)
    ensures f.text != [] && IsBlank(f.text[0]) && (forall c | c in f.text :: IsValueByte(c)) && IsBreak(f.eol)
  {
    hide IsBlank, IsValueByte, IsBreak;
  }

  /** u is the parser w after all the lines that continue the value. */
  predicate LinesRead(w: State, u: State, folds: seq<Fold>) {
    && u == w.(headerState := u.headerState, flags := u.flags)
    && (folds == [] || w.headerState != 1 ==> u == w)
    && (folds != [] && w.headerState == 1 ==>
          WithStateFlag(u).flags == TokenFlags(w.flags, OptionsOf(folds[0].text, folds[1..])))
  }

  lemma TokenFlagsJoin(flags: Flags, ts: seq<bytes>, us: seq<bytes>)
    ensures TokenFlags(flags, ts + us) == TokenFlags(TokenFlags(flags, ts), us)
  {
  }

  lemma LinesReadMore(w: State, m: State, u: State, folds: seq<Fold>)
    requires folds != [] && LineRead(w, m, folds[0].text) && LinesRead(m, u, folds[1..])
    ensures LinesRead(w, u, folds)
  {
    if w.headerState == 1 && m.headerState == 1 && |folds| > 1 {
      TokenFlagsJoin(w.flags, Tokens([], folds[0].text), OptionsOf(folds[1].text, folds[2..]));
      assert folds[1..][1..] == folds[2..];
    }
    hide Tokens, TokenFlags, ListState;
  }

  lemma {:induction false} ListStateIn(h: nat, ts: seq<bytes>)
    requires h <= 1
    ensures ListState(h, ts) == 1 || ReadsOn(ListState(h, ts))
    decreases |ts|
  {
    hide TokenNumber, Overshoots;
    if ts != [] {
      NumberIn(ts[0]);
      if |ts| > 1 {
        ListStateIn(Goes(h, ts[0]), ts[1..]);
      }
    }
  }

  lemma NumberIn(t: bytes)
    ensures TokenNumber(t) == 0 || 5 <= TokenNumber(t) <= 7
  {
  }

  lemma LineReadsOn(w: State, u: State, text: bytes)
    requires LineRead(w, u, text) && (w.headerState == 1 || ReadsOn(w.headerState))
    ensures u.node == w.node && (u.headerState == 1 || ReadsOn(u.headerState))
  {
    ListStateIn(1, Tokens([], text));
    hide Tokens, TokenFlags, ListState;
  }

  lemma NoLines(w: State)
    ensures LinesRead(w, w, [])
  {
  }

  /** All the lines that continue a value. */
  lemma {:induction false} FoldsRun(a: Stage, t: bytes, w: State, x: Context, folds: seq<Fold>, rest: bytes)
    returns (u: State)
    requires Leads(a, t, Outside(w, x), FoldsText(folds) + rest) && w.node == AtEdge(HeaderValueLws)
    requires folds != [] ==> (w.headerState == 1 || ReadsOn(w.headerState)) && forall f | f in folds :: IsFold(f)
    ensures u.node == w.node && LinesRead(w, u, folds) && Leads(a, t, Outside(u, FoldsContext(x, folds)), rest)
    decreases |folds|
  {
    hide Leads, Outside, IsFold, OnHeaderValue, LineRead, LinesRead, ReadsOn;
    if folds == [] {
      assert FoldsText(folds) + rest == rest;
      NoLines(w);
      u := w;
    } else {
      var f, after := folds[0], FoldsText(folds[1..]) + rest;
      assert (f.text + (f.eol + FoldsText(folds[1..]))) + rest == f.text + (f.eol + after);
      var m := FoldRun(a, t, w, x, f, after);
      LineReadsOn(w, m, f.text);
      u := FoldsRun(a, t, m, OnHeaderValue(After(After(x, f.text), f.eol), |x.buf|, |f.text|), folds[1..], rest);
      LinesReadMore(w, m, u, folds);
    }
  }

  /** The lines are reported as one text: it begins with the first of them and is as long as all together. */
  lemma {:induction false} FoldsTogether(x: Context, loc: nat, n: nat, folds: seq<Fold>)
    requires x.value.None?
    ensures FoldsContext(OnHeaderValue(x, loc, n), folds) ==
            OnHeaderValue(After(x, FoldsText(folds)), loc, n + FoldsLength(folds))
    decreases |folds|
  {
    if folds == [] {
      assert After(x, []) == x;
    } else {
      var f, rest := folds[0], folds[1..];
      var y := After(x, f.text + f.eol);
      assert x.buf + f.text + f.eol == x.buf + (f.text + f.eol);
      assert OnHeaderValue(After(After(OnHeaderValue(x, loc, n), f.text), f.eol), |x.buf|, |f.text|) ==
             OnHeaderValue(y, loc, n + |f.text|);
      FoldsTogether(y, loc, n + |f.text|, rest);
      assert (x.buf + (f.text + f.eol)) + FoldsText(rest) == x.buf + FoldsText(folds);
      hide OnHeaderValue;
      assert After(y, FoldsText(rest)) == After(x, FoldsText(folds));
    }
  }

  // ---- the rest of a line ----

  /** The response after the line of a header whose name has been reported. */
  function ValueContext(x: Context, space: bytes, v: bytes, eol: bytes, folds: seq<Fold>): Context {
    FoldsContext(OnHeaderValue(After(x, space + (v + eol)), |x.buf| + |space| + (if v == [] then |eol| else 0), |v|),
                 folds)
  }

  lemma ValueJoins(x: Context, space: bytes, v: bytes, eol: bytes, folds: seq<Fold>)
    ensures v != [] ==>
              var y := After(After(x, space), v);
              FoldsContext(OnHeaderValue(After(y, eol), |After(x, space).buf|, |y.buf| - |After(x, space).buf|),
                           folds) == ValueContext(x, space, v, eol, folds)
    ensures v == [] && folds == [] ==>
              var y := After(After(x, space), eol);
              OnHeaderValue(y, |y.buf|, 0) == ValueContext(x, space, v, eol, folds)
  {
    assert x.buf + space + v + eol == x.buf + (space + (v + eol));
    if v == [] {
      assert x.buf + space + eol == x.buf + (space + (v + eol));
    }
    hide OnHeaderValue;
  }

  lemma EmptyFits(s: State, v: bytes, folds: seq<Fold>)
    requires ValueFits(s, v) && v == [] && FoldsFit(s.headerState, v, folds)
    ensures s.headerState <= 4 && s.headerState != 2 && Inv(s) && s.error == 0 && s.node == AtEdge(HeaderValueDiscardWs)
    ensures ValueDone(s, s.(node := InField(HeaderFieldStart)), v, folds) && folds == [] && FoldsText(folds) == []
  {
    hide LengthOfText, Sequence, IsText;
  }

  /** The white space, the value and the end of a header, over all its lines. */
  lemma ValueRun(a: Stage, t: bytes, s: State, x: Context, space: bytes, v: bytes, eol: bytes, folds: seq<Fold>,
                 rest: bytes)
    returns (u: State)
    requires Leads(a, t, Outside(s, x), space + (v + (eol + (FoldsText(folds) + rest))))
    requires IsLead(space) && ValueFits(s, v) && IsBreak(eol) && FoldsFit(s.headerState, v, folds)
    requires rest != [] && rest[0] != SP && rest[0] != TAB
    ensures ValueDone(s, u, v, folds) && Leads(a, t, Outside(u, ValueContext(x, space, v, eol, folds)), rest)
  {
    hide *;
    var after := eol + (FoldsText(folds) + rest);
    ValueJoins(x, space, v, eol, folds);
    FirstIn(v, after);
    FitsNode(s, v);
    SpaceRun(a, t, s, x, space, v + after);
    var y := After(x, space);
    if v == [] {
      EmptyFits(s, v, folds);
      assert FoldsText(folds) + rest == rest;
      EmptyRun(a, t, s, y, eol, rest);
      u := s.(node := InField(HeaderFieldStart));
    } else {
      u := FilledRun(a, t, s, y, v, eol, folds, rest);
    }
  }

  lemma FitsNode(s: State, v: bytes)
    requires ValueFits(s, v)
    ensures s.node == AtEdge(HeaderValueDiscardWs)
  {
    hide Sequence, IsValue;
  }

  lemma FilledRun(a: Stage, t: bytes, s: State, x: Context, v: bytes, eol: bytes, folds: seq<Fold>,
                  rest: bytes) returns (u: State)
    requires Leads(a, t, Outside(s, x), v + (eol + (FoldsText(folds) + rest))) && ValueFits(s, v) && v != []
             && IsBreak(eol)
    requires FoldsFit(s.headerState, v, folds) && rest != [] && rest[0] != SP && rest[0] != TAB
    ensures var y := After(x, v);
            && ValueDone(s, u, v, folds)
            && Leads(a, t, Outside(u, FoldsContext(OnHeaderValue(After(y, eol), |x.buf|, |y.buf| - |x.buf|), folds)),
                     rest)
  {
    hide *;
    var lines := FoldsText(folds) + rest;
    var after := eol + lines;
    BreakStarts(eol, lines);
    FirstIn(v, after);
    FitsParts(s, v);
    var m, b := ValueStarts(s, v[0]);
    MoveOn(a, t, s, x, v + after, m);
    MoveOn(a, t, m, x, v + after, b);
    OutsideIs(b, x);
    var e := TextRun(a, t, s, x, v, after);
    ReadParts(s, e, v);
    var y := After(x, v);
    ValueBreaks(a, t, Stage(e, y, |x.buf|), eol, lines);
    FoldsState(s, e, v, folds);
    var z, w := OnHeaderValue(After(y, eol), |x.buf|, |y.buf| - |x.buf|), e.(node := AtEdge(HeaderValueLws));
    var n := FoldsRun(a, t, w, z, folds, rest);
    assert n.(node := AtEdge(HeaderValueLws)) == n;
    ValueSettles(a, t, n, FoldsContext(z, folds), rest);
    u := Settle(n);
    FoldsDone(s, e, n, v, folds);
  }

  lemma FoldsState(s: State, e: State, v: bytes, folds: seq<Fold>)
    requires FoldsFit(s.headerState, v, folds) && ValueRead(s, e, v)
    ensures folds != [] ==> (e.headerState == 1 || ReadsOn(e.headerState)) && forall f | f in folds :: IsFold(f)
  {
    ListStateIn(1, Tokens([], v));
    hide IsFold, ListState, Tokens, ValueDone, Inv;
  }

  /** The options of all lines that are read have taken effect. */
  lemma FoldsDone(s: State, e: State, m: State, v: bytes, folds: seq<Fold>)
    requires ValueRead(s, e, v) && v != [] && FoldsFit(s.headerState, v, folds)
             && LinesRead(e.(node := AtEdge(HeaderValueLws)), m, folds)
    ensures ValueDone(s, Settle(m), v, folds)
  {
    SettledParts(e);
    SettledParts(m);
    SettleIs(e);
    SettleIs(m);
    assert m.(node := AtEdge(HeaderValueLws)) == m;
    hide IsFold, ListState, Tokens, TokenFlags, Inv, IsChunked, LengthOfText, WithStateFlag, Settle;
    if s.headerState == 1 && e.headerState == 1 && folds != [] {
      NoStateFlags(e);
      TokenFlagsJoin(s.flags, Tokens([], v), OptionsOf(folds[0].text, folds[1..]));
    }
  }

  lemma ReadParts(s: State, e: State, v: bytes)
    requires ValueRead(s, e, v)
    ensures Inv(e) && e.error == 0 && e.node == AtEdge(HeaderValueOtherwise)
  {
    hide ValueDone, Settle, Inv;
  }

  // ---- lengths are not folded ----

  lemma LengthAgain(w: State, c: byte) returns (u: State)
    requires Inv(w) && w.error == 0 && w.node == AtEdge(HeaderValueLws) && w.headerState == 2
             && w.flags.contentLength && IsBlank(c)
    ensures Inv(u) && u.error == 0 && Step(w, c) == Out(u, false, [])
            && Step(u, c).s.error == HPE_UNEXPECTED_CONTENT_LENGTH != 0
  {
    hide Sequence;
    u := w.(node := AtEdge(SpanStartHeaderValue1));
  }

  /** A byte that is refused ends the run. */
  lemma Refuses(a: Stage, t: bytes, s: State, x: Context, r: bytes)
    requires Leads(a, t, Outside(s, x), r) && r != [] && Inv(s) && s.error == 0 && Step(s, r[0]).s.error != 0
    ensures Inv(Virtual(a.s, a.x, a.from).parser)
    ensures AbsorbAll(Virtual(a.s, a.x, a.from), t).parser.error == Step(s, r[0]).s.error
  {
    hide *;
    LeadsSound(a, t, Outside(s, x), r);
    LeadsSame(a, t, Outside(s, x), r);
    OutsideCut(s, x);
    CutSystem(s, x);
    AbsorbAllStep(System(s, x), r);
    AbsorbStep(System(s, x), r[0]);
    ErrorStays(Absorb(System(s, x), r[0]), r[1..]);
  }

  lemma LeadsSame(a: Stage, t: bytes, b: Stage, r: bytes)
    requires Leads(a, t, b, r)
    ensures Inv(Virtual(a.s, a.x, a.from).parser) && Inv(Virtual(b.s, b.x, b.from).parser)
    ensures AbsorbAll(Virtual(a.s, a.x, a.from), t) == AbsorbAll(Virtual(b.s, b.x, b.from), r)
  {
    hide AbsorbAll, Virtual, Inv, Cut;
    CutVirtual(a.s, a.x, a.from);
    CutVirtual(b.s, b.x, b.from);
  }

  lemma OutsideCut(s: State, x: Context)
    requires Sound(Outside(s, x))
    ensures Cut(s, x, |x.buf|) && Outside(s, x).s == s && Outside(s, x).x == x && Outside(s, x).from == |x.buf|
  {
    hide Cut;
  }

  /** A length that goes on in another line is refused, as if it were announced twice. */
  lemma LengthFolded(a: Stage, t: bytes, s: State, x: Context, space: bytes, v: bytes, eol: bytes, c: byte, rest: bytes)
    requires Leads(a, t, Outside(s, x), space + (v + (eol + ([c] + rest))))
    requires IsLead(space) && ValueFits(s, v) && s.headerState == 2 && IsBreak(eol) && IsBlank(c)
    ensures Inv(Virtual(a.s, a.x, a.from).parser)
    ensures AbsorbAll(Virtual(a.s, a.x, a.from), t).parser.error == HPE_UNEXPECTED_CONTENT_LENGTH
  {
    hide *;
    var more := [c] + rest;
    var after := eol + more;
    BreakStarts(eol, more);
    FirstOf(c, rest);
    FitsNode(s, v);
    LengthSome(s, v);
    FirstIn(v, after);
    FitsParts(s, v);
    SpaceRun(a, t, s, x, space, v + after);
    var y := After(x, space);
    var m, b := ValueStarts(s, v[0]);
    MoveOn(a, t, s, y, v + after, m);
    MoveOn(a, t, m, y, v + after, b);
    OutsideIs(b, y);
    var e := TextRun(a, t, s, y, v, after);
    ReadParts(s, e, v);
    LengthKnown(s, e, v);
    ValueBreaks(a, t, Stage(e, After(y, v), |y.buf|), eol, more);
    var w := e.(node := AtEdge(HeaderValueLws));
    var z := OnHeaderValue(After(After(y, v), eol), |y.buf|, |After(y, v).buf| - |y.buf|);
    LeadsSound(a, t, Outside(w, z), more);
    OutsideSound(w, z, []);
    var u := LengthAgain(w, c);
    MoveOn(a, t, w, z, more, u);
    Refuses(a, t, u, z, more);
  }

  lemma LengthSome(s: State, v: bytes)
    requires ValueFits(s, v) && s.headerState == 2
    ensures v != []
  {
    hide Sequence, LengthOfText, IsText;
  }

  lemma LengthKnown(s: State, e: State, v: bytes)
    requires ValueRead(s, e, v) && s.headerState == 2 && v != []
    ensures e.headerState == 2 && e.flags.contentLength
  {
    SettledParts(e);
    hide Settle, LengthOfText, Inv;
  }
}
