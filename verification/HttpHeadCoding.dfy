/** How the automaton reads lists of transfer codings (section 3.3.1 of RFC 7230). What it takes for a list that
    ends in chunked is said apart from the reading in HttpLastCoding. */
module HttpHeadCoding {
  import opened Bytes
  import opened Llhttp
  import opened HttpBulk
  import opened HttpHead
  import opened HttpHeadName
  import opened HttpHeadToken

  // ---- the last coding of a list ----

  /** How much of the word has been read: all of it, or so little that the coding is another one. */
  const WHOLE: nat := 7
  const OTHER: nat := 8

  /** The progress after one byte more: a comma starts the next coding, blanks in front of a coding and spaces
      behind the word do not count, and the word may be repeated. */
  function Progress(p: nat, c: byte): nat {
    if c == COMMA then 0
    else if p == 0 && IsBlank(c) then 0
    else if p < WHOLE then (if ToLower(c) == CHUNKED[p] then p + 1 else OTHER)
    else if p == WHOLE then (if c == SP then WHOLE else if ToLower(c) == CHUNKED[0] then 1 else OTHER)
    else OTHER
  }

  function Coding(p: nat, v: bytes): nat
    decreases |v|
  {
    if v == [] then p else Coding(Progress(p, v[0]), v[1..])
  }

  predicate IsChunked(v: bytes) {
    Coding(0, v) == WHOLE
  }

  lemma {:induction false} CodingOfTwo(p: nat, v: bytes, w: bytes)
    ensures Coding(p, v + w) == Coding(Coding(p, v), w)
    decreases |v|
  {
    if v == [] {
      assert v + w == w;
    } else {
      assert (v + w)[0] == v[0] && (v + w)[1..] == v[1..] + w;
      CodingOfTwo(Progress(p, v[0]), v[1..], w);
      hide Progress;
    }
  }

  /** Whatever comes before a comma does not matter: the last coding decides. */
  lemma LastDecides(v: bytes, w: bytes)
    ensures IsChunked(v + [COMMA] + w) <==> IsChunked(w)
  {
    var head := v + [COMMA];
    CodingOfTwo(0, head, w);
    CodingOfTwo(0, v, [COMMA]);
    assert [COMMA][1..] == [];
    assert Coding(Coding(0, v), [COMMA]) == 0;
    hide Coding;
  }

  lemma {:induction false} BlanksIgnored(v: bytes)
    requires forall c | c in v :: IsBlank(c)
    ensures Coding(0, v) == 0
  {
    if v != [] {
      assert v[0] in v && forall c | c in v[1..] :: c in v;
      BlanksIgnored(v[1..]);
    }
  }

  lemma {:induction false} SpacesIgnored(v: bytes)
    requires forall c | c in v :: c == SP
    ensures Coding(WHOLE, v) == WHOLE
  {
    if v != [] {
      assert v[0] in v && forall c | c in v[1..] :: c in v;
      SpacesIgnored(v[1..]);
    }
  }

  lemma {:induction false} WordReadOn(p: nat, w: bytes)
    requires p <= WHOLE && Lowered(w) == CHUNKED[p..] && COMMA !in w
    ensures Coding(p, w) == WHOLE
    decreases |w|
  {
    if w != [] {
      assert Lowered(w)[0] == ToLower(w[0]) == CHUNKED[p];
      assert Lowered(w[1..]) == Lowered(w)[1..] == CHUNKED[p + 1..];
      ChunkedLetter(p);
      LowerBlank(w[0]);
      WordReadOn(p + 1, w[1..]);
    }
  }

  lemma ChunkedLetter(j: nat)
    requires j < |CHUNKED|
    ensures 97 <= CHUNKED[j] <= 122
  {
  }

  /** The word, in any case, with blanks before it and spaces behind it, is recognised. */
  lemma WordIsChunked(before: bytes, w: bytes, after: bytes)
    requires (forall c | c in before :: IsBlank(c)) && (forall c | c in after :: c == SP)
    requires Lowered(w) == CHUNKED && COMMA !in w
    ensures IsChunked(before + w + after)
  {
    var head := before + w;
    assert CHUNKED[0..] == CHUNKED;
    hide Coding, Progress, Lowered;
    BlanksIgnored(before);
    WordReadOn(0, w);
    SpacesIgnored(after);
    CodingOfTwo(0, before, w);
    CodingOfTwo(0, head, after);
  }

  // ---- reading a list ----

  /** The parser has read so much of a coding. */
  predicate InCoding(s: State, p: nat) {
    && Inv(s) && s.error == 0
    && match s.node
       case InMatch(w) => w == HeaderValueTeChunked && s.index == p < WHOLE
       case InValue(n) =>
         || (n == HeaderValueTeTokenOws && p == 0)
         || (n == HeaderValueTeChunkedLast && p == WHOLE)
         || (n == HeaderValueTeToken && p == OTHER)
       case _ => false
  }

  function Matching(s: State, k: nat): State {
    s.(node := InMatch(HeaderValueTeChunked), index := k)
  }

  function Value(s: State, n: ValueNode): State {
    s.(node := InValue(n), index := 0)
  }

  lemma SafeFolding(c: byte, l: byte)
    requires 97 <= l <= 122
    ensures ToLowerUnsafe(c) == l <==> ToLower(c) == l
  {
  }

  lemma MatchingStep(s: State, k: nat, c: byte)
    requires Inv(s) && s.error == 0 && s == Matching(s, k) && k < WHOLE
    ensures Step(s, c) == if ToLower(c) == CHUNKED[k] then
                            Out(if k + 1 == WHOLE then Value(s, HeaderValueTeChunkedLast)
                                else Matching(s, k + 1), true, [Data(Kind.Value)])
                          else Out(Value(s, HeaderValueTeToken), false, [])
    ensures SpanOf(s) == Some(Kind.Value)
  {
    ChunkedLetter(k);
    SafeFolding(c, CHUNKED[k]);
    hide ToLower, ToLowerUnsafe;
  }

  lemma CodingStates(s: State, k: nat)
    requires Inv(s) && s.error == 0 && k < WHOLE
    ensures var m := Matching(s, k);
            Inv(m) && m.error == 0 && SpanOf(m) == Some(Kind.Value) && m == Matching(m, k) && InCoding(m, k)
    ensures var m := Value(s, HeaderValueTeToken); InCoding(m, OTHER) && SpanOf(m) == Some(Kind.Value)
    ensures var m := Value(s, HeaderValueTeChunkedLast); InCoding(m, WHOLE) && SpanOf(m) == Some(Kind.Value)
    ensures var m := Value(s, HeaderValueTeTokenOws); InCoding(m, 0) && SpanOf(m) == Some(Kind.Value)
  {
    assert |CHUNKED| == WHOLE;
  }

  /** One byte that is compared with the word. */
  lemma CompareByte(a: Stage, t: bytes, b: Stage, r: bytes, k: nat) returns (u: State)
    requires Leads(a, t, b, r) && r != [] && Inv(b.s) && b.s.error == 0 && b.s == Matching(b.s, k) && k < WHOLE
    requires r[0] != COMMA && IsValueByte(r[0])
    ensures var q := if ToLower(r[0]) == CHUNKED[k] then k + 1 else OTHER; InCoding(u, q) && q != 0 && SameBut(b.s, u)
    ensures Leads(a, t, Stage(u, After(b.x, [r[0]]), b.from), r[1..])
  {
    var c := r[0];
    MatchingStep(b.s, k, c);
    CodingStates(b.s, if k + 1 < WHOLE then k + 1 else k);
    OtherStep(Value(b.s, HeaderValueTeToken), c);
    assert OTHER != 0;
    hide *;
    if ToLower(c) == CHUNKED[k] {
      u := if k + 1 == WHOLE then Value(b.s, HeaderValueTeChunkedLast) else Matching(b.s, k + 1);
      InCodingIs(u);
      TakeIn(a, t, b, r, u, Kind.Value);
    } else {
      u := Value(b.s, HeaderValueTeToken);
      InCodingIs(u);
      MoveIn(a, t, b, r, u);
      TakeIn(a, t, Stage(u, b.x, b.from), r, u, Kind.Value);
    }
    ValueSame(b.s, k + 1);
  }

  lemma ValueSame(s: State, k: nat)
    ensures SameBut(s, Matching(s, k)) && forall n :: SameBut(s, Value(s, n))
  {
  }

  lemma InCodingIs(s: State)
    ensures forall p :: InCoding(s, p) ==> Inv(s) && s.error == 0 && SpanOf(s) == Some(Kind.Value)
  {
    hide Sequence;
  }

  lemma OtherStep(s: State, c: byte)
    requires Inv(s) && s.error == 0 && s.node == InValue(HeaderValueTeToken)
    ensures c != COMMA && IsValueByte(c) ==> Step(s, c) == Out(s, true, [Data(Kind.Value)])
    ensures c == COMMA ==> Step(s, c) == Out(s.(node := InValue(HeaderValueTeTokenOws)), true, [Data(Kind.Value)])
    ensures c == CR || c == LF ==> Step(s, c) == Out(s.(headerState := 0, node := InValue(HeaderValue)), false, [])
  {
  }

  lemma EdgeSteps(s: State, c: byte)
    requires Inv(s) && s.error == 0
    ensures s.node == InValue(HeaderValueTeTokenOws) ==>
              Step(s, c) == if IsBlank(c) then Out(s, true, [Data(Kind.Value)])
                            else Out(s.(node := InMatch(HeaderValueTeChunked)), false, [])
    ensures s.node == InValue(HeaderValueTeChunkedLast) ==>
              Step(s, c) == if c == CR
              || c == LF then Out(s.(headerState := 8, node := AtEdge(HeaderValueOtherwise)), false, [])
                            else if c == SP then Out(s, true, [Data(Kind.Value)])
                            else Out(s.(node := InMatch(HeaderValueTeChunked)), false, [])
  {
  }

  lemma AtStart(s: State, p: nat)
    requires InCoding(s, p)
    ensures Inv(s) && s.error == 0 && SpanOf(s) == Some(Kind.Value)
    ensures s.node.InMatch? ==> p < WHOLE && s == Matching(s, p)
    ensures s.node.InValue? ==>
              s == Value(s, s.node.value) && s.(node := InMatch(HeaderValueTeChunked)) == Matching(s, 0)
    ensures s.node == InValue(HeaderValueTeTokenOws) ==> p == 0
    ensures s.node == InValue(HeaderValueTeChunkedLast) ==> p == WHOLE
    ensures s.node == InValue(HeaderValueTeToken) ==> p == OTHER
    ensures s.node.InMatch? || s.node == InValue(HeaderValueTeTokenOws) || s.node == InValue(HeaderValueTeChunkedLast)
            || s.node == InValue(HeaderValueTeToken)
  {
    hide Sequence;
  }

  lemma ProgressIs(p: nat, c: byte)
    requires c != COMMA
    ensures p < WHOLE && (p == 0 ==> !IsBlank(c)) ==>
              Progress(p, c) == if ToLower(c) == CHUNKED[p] then p + 1 else OTHER
    ensures p == WHOLE && c != SP ==> Progress(p, c) == if ToLower(c) == CHUNKED[0] then 1 else OTHER
    ensures p == WHOLE && c == SP ==> Progress(p, c) == p
    ensures p == 0 && IsBlank(c) ==> Progress(p, c) == 0
    ensures p == OTHER ==> Progress(p, c) == OTHER
  {
  }

  /** A byte of a coding. */
  lemma CodingByte(a: Stage, t: bytes, b: Stage, r: bytes, p: nat) returns (u: State)
    requires Leads(a, t, b, r) && r != [] && IsValueByte(r[0]) && r[0] != COMMA && InCoding(b.s, p)
    requires b.s.node.InMatch? && p == 0 ==> !IsBlank(r[0])
    ensures InCoding(u, Progress(p, r[0])) && SameBut(b.s, u) && (u.node.InMatch? ==> Progress(p, r[0]) != 0)
    ensures Leads(a, t, Stage(u, After(b.x, [r[0]]), b.from), r[1..])
  {
    assert 0 < WHOLE && OTHER != 0;
    hide *;
    var c, s := r[0], b.s;
    AtStart(s, p);
    ProgressIs(p, c);
    BlankSpace(c);
    EdgeSteps(s, c);
    CodingStates(s, 0);
    ValueSame(s, 0);
    if s.node.InMatch? {
      u := CompareByte(a, t, b, r, p);
    } else if s.node == InValue(HeaderValueTeToken) {
      OtherStep(s, c);
      u := s;
      TakeIn(a, t, b, r, u, Kind.Value);
    } else if (s.node == InValue(HeaderValueTeTokenOws) && IsBlank(c))
    || (s.node == InValue(HeaderValueTeChunkedLast) && c == SP) {
      u := s;
      TakeIn(a, t, b, r, u, Kind.Value);
    } else {
      var m := Matching(s, 0);
      InCodingIs(m);
      LineByte(c);
      MoveIn(a, t, b, r, m);
      u := CompareByte(a, t, Stage(m, b.x, b.from), r, 0);
      SameTwice(s, m, u);
    }
  }

  lemma BlankSpace(c: byte)
    ensures c == SP ==> IsBlank(c)
  {
  }

  lemma LineByte(c: byte)
    requires IsValueByte(c)
    ensures c != CR && c != LF
  {
  }

  /** A coding that is not the word, at its end. */
  lemma GivenUp(a: Stage, t: bytes, b: Stage, r: bytes, p: nat)
    requires Leads(a, t, b, r) && r != [] && (r[0] == COMMA || r[0] == CR || r[0] == LF) && InCoding(b.s, p)
    requires p == WHOLE ==> r[0] == COMMA
    ensures Leads(a, t, Stage(Value(b.s, HeaderValueTeToken), b.x, b.from), r)
    ensures InCoding(Value(b.s, HeaderValueTeToken), OTHER)
  {
    assert 0 < WHOLE && OTHER != 0;
    hide *;
    var c, s := r[0], b.s;
    AtStart(s, p);
    CodingStates(s, 0);
    EndsWord(c);
    EdgeSteps(s, c);
    StageIs(b);
    var m, u := Matching(s, 0), Value(s, HeaderValueTeToken);
    InCodingIs(m);
    InCodingIs(u);
    if s.node.InMatch? {
      MatchingStep(s, p, c);
      WordEnds(p, c);
      MoveIn(a, t, b, r, u);
    } else if s.node != InValue(HeaderValueTeToken) {
      MoveIn(a, t, b, r, m);
      MatchingStep(m, 0, c);
      WordEnds(0, c);
      ValueOfMatching(s);
      MoveIn(a, t, Stage(m, b.x, b.from), r, u);
    }
  }

  lemma ValueOfMatching(s: State)
    ensures forall n :: Value(Matching(s, 0), n) == Value(s, n)
  {
  }

  lemma EndsWord(c: byte)
    requires c == COMMA || c == CR || c == LF
    ensures !IsBlank(c) && c != SP && (c == COMMA ==> c != CR && c != LF)
  {
  }

  lemma WordEnds(k: nat, c: byte)
    requires k < WHOLE && (c == COMMA || c == CR || c == LF)
    ensures ToLower(c) != CHUNKED[k]
  {
    ChunkedLetter(k);
  }

  lemma CodingComma(a: Stage, t: bytes, b: Stage, r: bytes, p: nat) returns (u: State)
    requires Leads(a, t, b, r) && r != [] && r[0] == COMMA && InCoding(b.s, p)
    ensures InCoding(u, 0) && SameBut(b.s, u) && !u.node.InMatch?
    ensures Leads(a, t, Stage(u, After(b.x, [r[0]]), b.from), r[1..])
  {
    assert 0 < WHOLE;
    hide *;
    GivenUp(a, t, b, r, p);
    var m := Value(b.s, HeaderValueTeToken);
    u := Value(b.s, HeaderValueTeTokenOws);
    AtStart(b.s, p);
    CodingStates(b.s, 0);
    ValueSame(b.s, 0);
    NodeValue(b.s);
    InCodingIs(m);
    InCodingIs(u);
    OtherStep(m, COMMA);
    TakeIn(a, t, Stage(m, b.x, b.from), r, u, Kind.Value);
  }

  lemma NodeValue(s: State)
    ensures Value(s, HeaderValueTeToken).node == InValue(HeaderValueTeToken)
    ensures Value(s, HeaderValueTeToken).(node := InValue(HeaderValueTeTokenOws)) == Value(s, HeaderValueTeTokenOws)
    ensures !Value(s, HeaderValueTeTokenOws).node.InMatch?
  {
  }

  /** The parser at the end of a list of codings. */
  function CodingsEnd(s: State, chunked: bool): State {
    s.(node := AtEdge(HeaderValueOtherwise), index := 0, headerState := if chunked then 8 else 0)
  }

  lemma PlainStop(s: State, c: byte)
    requires InCoding(Value(s, HeaderValueTeToken), OTHER) && (c == CR || c == LF)
    ensures var m, e := Value(s, HeaderValueTeToken), CodingsEnd(s, false);
            var u := m.(headerState := 0, node := InValue(HeaderValue));
            && Inv(m) && m.error == 0 && Inv(u) && u.error == 0 && SpanOf(u).Some? && Inv(e) && e.error == 0
            && SpanOf(e).Some?
            && Step(m, c) == Out(u, false, []) && Step(u, c) == Out(e, false, [])
  {
  }

  lemma WholeStop(s: State)
    requires InCoding(s, WHOLE)
    ensures Inv(s) && s.error == 0 && s.node == InValue(HeaderValueTeChunkedLast)
    ensures var e := CodingsEnd(s, true);
            Inv(e) && e.error == 0 && SpanOf(e).Some? && e == s.(headerState := 8, node := AtEdge(HeaderValueOtherwise))
  {
    hide Sequence;
  }

  lemma CodingsStop(a: Stage, t: bytes, b: Stage, r: bytes, p: nat)
    requires Leads(a, t, b, r) && r != [] && (r[0] == CR || r[0] == LF) && InCoding(b.s, p)
    ensures var e := CodingsEnd(b.s, p == WHOLE); Inv(e) && e.error == 0 && Leads(a, t, Stage(e, b.x, b.from), r)
  {
    hide *;
    var c := r[0];
    if p == WHOLE {
      WholeStop(b.s);
      EdgeSteps(b.s, c);
      MoveIn(a, t, b, r, CodingsEnd(b.s, true));
    } else {
      GivenUp(a, t, b, r, p);
      PlainStop(b.s, c);
      var m := Value(b.s, HeaderValueTeToken);
      var u := m.(headerState := 0, node := InValue(HeaderValue));
      MoveIn(a, t, Stage(m, b.x, b.from), r, u);
      MoveIn(a, t, Stage(u, b.x, b.from), r, CodingsEnd(b.s, false));
    }
  }

  /** A whole list of codings. */
  lemma {:induction false} CodingsRun(a: Stage, t: bytes, b: Stage, v: bytes, after: bytes, p: nat)
    requires Leads(a, t, b, v + after) && InCoding(b.s, p) && (forall c | c in v :: IsValueByte(c))
    requires after != [] && (after[0] == CR || after[0] == LF)
    requires b.s.node.InMatch? && p == 0 && v != [] ==> !IsBlank(v[0])
    ensures var e := CodingsEnd(b.s, Coding(p, v) == WHOLE);
            Inv(e) && e.error == 0 && Leads(a, t, Stage(e, After(b.x, v), b.from), after)
    decreases |v|
  {
    hide Leads, InCoding, Inv, SameBut, IsValueByte, Progress, IsBlank;
    var r := v + after;
    if v == [] {
      assert r == after && After(b.x, v) == b.x;
      CodingsStop(a, t, b, r, p);
    } else {
      assert r[0] == v[0] && r[1..] == v[1..] + after && v[0] in v;
      assert forall c | c in v[1..] :: c in v;
      AfterOn(b.x, v);
      var u;
      if v[0] == COMMA {
        u := CodingComma(a, t, b, r, p);
        CommaProgress(p);
      } else {
        u := CodingByte(a, t, b, r, p);
      }
      CodingsRun(a, t, Stage(u, After(b.x, [v[0]]), b.from), v[1..], after, Progress(p, v[0]));
      EndSame(b.s, u);
    }
  }

  lemma CommaProgress(p: nat)
    ensures Progress(p, COMMA) == 0
  {
  }

  lemma EndSame(s: State, u: State)
    requires SameBut(s, u)
    ensures forall chunked :: CodingsEnd(u, chunked) == CodingsEnd(s, chunked)
  {
  }
}
