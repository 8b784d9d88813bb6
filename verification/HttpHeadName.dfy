/** How the automaton reads the name of a header: byte by byte along the words it knows, and
    without regard to case. */
module HttpHeadName {
  import opened Bytes
  import opened Llhttp
  import opened HttpContext
  import opened HttpBulk
  import opened HttpHead

  const CON: bytes := [99, 111, 110]
  const CONNECTION: bytes := CON + [110] + ECTION
  const CONTENT_LENGTH: bytes := CON + [116] + ENT_LENGTH
  const PROXY_CONNECTION: bytes := [112] + ROXY_CONNECTION
  const TRANSFER_ENCODING: bytes := [116] + RANSFER_ENCODING
  const UPGRADE: bytes := [117] + PGRADE

  /** Token characters of section 3.2.6 of RFC 7230. */
  predicate IsTchar(c: byte) {
    IsToken(c) && c != SP
  }

  function Lowered(t: bytes): (f: bytes)
    ensures |f| == |t|
  {
    if t == [] then [] else [ToLower(t[0])] + Lowered(t[1..])
  }

  /** The header_state a whole name leads to: the headers that decide about the connection and the body. */
  function NameClass(f: bytes): nat {
    if f == CONNECTION || f == PROXY_CONNECTION then 1
    else if f == CONTENT_LENGTH then 2
    else if f == TRANSFER_ENCODING then 3
    else if f == UPGRADE then 4
    else 0
  }

  /** No known name starts with f. */
  predicate Diverged(f: bytes) {
    !(f <= CONNECTION) && !(f <= CONTENT_LENGTH) && !(f <= PROXY_CONNECTION) && !(f <= TRANSFER_ENCODING)
    && !(f <= UPGRADE)
  }

  predicate IsFieldWord(w: MatchNode) {
    w != StartRes && !IsValueWord(w)
  }

  /** What has been read once the word of a node is complete. */
  function Whole(w: MatchNode): (t: bytes)
    requires IsFieldWord(w)
  {
    match w
    case HeaderField1 => CON
    case HeaderField3 => CONNECTION
    case HeaderField4 => CONTENT_LENGTH
    case HeaderField5 => PROXY_CONNECTION
    case HeaderField6 => TRANSFER_ENCODING
    case HeaderField7 => UPGRADE
  }

  /** How much of the name came before the word. */
  function Before(w: MatchNode): nat
    requires IsFieldWord(w)
  {
    if w == HeaderField3 || w == HeaderField4 then 4 else 1
  }

  lemma WholeIs(w: MatchNode)
    requires IsFieldWord(w)
    ensures |Whole(w)| == Before(w) + |Sequence(w)|
    ensures Whole(w)[Before(w)..] == Sequence(w)
  {
  }

  /** The parser has read f of a name. */
  predicate InName(s: State, f: bytes) {
    && Inv(s) && s.error == 0
    && match s.node
       case InField(n) =>
         || (n == HeaderField && f == [])
         || (n == HeaderField2 && f == CON)
         || (n == HeaderFieldColon && f != [] && s.headerState != 0 && NameClass(f) == s.headerState)
         || (n == HeaderFieldGeneral && s.headerState == 0 && Diverged(f))
       case InMatch(w) =>
         IsFieldWord(w) && Before(w) + s.index <= |Whole(w)| && f == Whole(w)[..Before(w) + s.index]
       case _ => false
  }

  /** A name that leaves a known word is no other known name. */
  lemma Leaves(w: MatchNode, k: nat, c: byte)
    requires IsFieldWord(w) && Before(w) <= k < |Whole(w)| && c != Whole(w)[k]
    ensures Diverged(Whole(w)[..k] + [c])
  {
    var f, g := Whole(w)[..k], Whole(w)[..k] + [c];
    assert g[k] == c && g[0] == Whole(w)[0];
    if k >= 4 {
      assert g[3] == Whole(w)[3];
    }
  }

  lemma WholeApart(w: MatchNode, c: byte)
    requires IsFieldWord(w) && w != HeaderField1
    ensures Diverged(Whole(w) + [c])
  {
    var g := Whole(w) + [c];
    assert g[0] == Whole(w)[0] && g[3] == Whole(w)[3];
  }

  lemma ConApart(c: byte)
    requires c != 110 && c != 116
    ensures Diverged(CON + [c])
  {
    var g := CON + [c];
    assert g[0] == 99 && g[3] == c;
  }

  lemma FirstApart(c: byte)
    requires c != 99 && c != 112 && c != 116 && c != 117
    ensures Diverged([c])
  {
    assert [c][0] == c;
  }

  lemma DivergedOn(f: bytes, c: byte)
    requires Diverged(f)
    ensures Diverged(f + [c])
  {
    var g := f + [c];
    if g <= CONNECTION { DivergedPrefix(f, g, CONNECTION); }
    if g <= CONTENT_LENGTH { DivergedPrefix(f, g, CONTENT_LENGTH); }
    if g <= PROXY_CONNECTION { DivergedPrefix(f, g, PROXY_CONNECTION); }
    if g <= TRANSFER_ENCODING { DivergedPrefix(f, g, TRANSFER_ENCODING); }
    if g <= UPGRADE { DivergedPrefix(f, g, UPGRADE); }
  }

  lemma DivergedPrefix(f: bytes, g: bytes, w: bytes)
    requires f <= g && g <= w
    ensures f <= w
  {
  }

  /** Part of a known name is no known name. */
  lemma PartUnknown(w: MatchNode, k: nat)
    requires IsFieldWord(w) && Before(w) <= k < |Whole(w)|
    ensures NameClass(Whole(w)[..k]) == 0
  {
    var f := Whole(w)[..k];
    assert f[0] == Whole(w)[0];
    if k >= 4 {
      assert f[3] == Whole(w)[3];
    }
  }

  lemma DivergedUnknown(f: bytes)
    requires Diverged(f)
    ensures NameClass(f) == 0
  {
  }

  lemma ConUnknown()
    ensures NameClass(CON) == 0
  {
  }

  lemma WholeKnown(w: MatchNode)
    requires IsFieldWord(w) && w != HeaderField1
    ensures NameClass(Whole(w)) != 0 && Whole(w) != []
    ensures forall s: State ::
             Matched(s, w) == s.(node := InField(HeaderFieldColon), headerState := NameClass(Whole(w)))
  {
    assert CONNECTION[0] == 99 && CONTENT_LENGTH[0] == 99 && CONNECTION[3] == 110 && CONTENT_LENGTH[3] == 116;
    assert PROXY_CONNECTION[0] == 112 && TRANSFER_ENCODING[0] == 116 && UPGRADE[0] == 117;
  }

  lemma ClassKnown(f: bytes) returns (w: MatchNode)
    requires NameClass(f) != 0
    ensures IsFieldWord(w) && w != HeaderField1 && f == Whole(w)
  {
    w := if f == CONNECTION then HeaderField3 else if f == PROXY_CONNECTION then HeaderField5
         else if f == CONTENT_LENGTH then HeaderField4 else if f == TRANSFER_ENCODING then HeaderField6
         else HeaderField7;
  }

  /** The state in which a name is no known one. */
  function General(s: State): State {
    s.(node := InField(HeaderFieldGeneral), index := 0, headerState := 0)
  }

  predicate SameBut(s: State, u: State) {
    u == s.(node := u.node, index := u.index, headerState := u.headerState)
  }

  /** One byte of a name is read at once, or after leaving the known words. */
  predicate Reads(s: State, c: byte, u: State)
    requires Inv(s) && s.error == 0
  {
    || Step(s, c) == Out(u, true, [Data(Field)])
    || (Step(s, c) == Out(General(s), false, []) && Inv(General(s)) && u == General(s)
        && Step(u, c) == Out(u, true, [Data(Field)]))
  }

  lemma GeneralReads(s: State, f: bytes, c: byte)
    requires Inv(s) && s.error == 0 && IsTchar(c) && Diverged(f)
    ensures var u := General(s);
            InName(u, f) && Inv(u) && u.error == 0 && Step(u, c) == Out(u, true, [Data(Field)]) && SameBut(s, u)
  {
    hide Sequence, Diverged, ToLower, Matched, Mismatched;
  }

  /** What is known inside a word. */
  lemma WordParts(s: State, f: bytes) returns (w: MatchNode, k: nat)
    requires InName(s, f) && s.node.InMatch?
    ensures w == s.node.word && IsFieldWord(w) && k == Before(w) + s.index && f == Whole(w)[..k] && Inv(s)
            && s.error == 0
    ensures s.index < |Sequence(w)| && Before(w) <= k < |Whole(w)| && Whole(w)[k] == Sequence(w)[s.index]
    ensures |Whole(w)| == Before(w) + |Sequence(w)|
  {
    w, k := s.node.word, Before(s.node.word) + s.index;
    WholeIs(w);
    hide Sequence, Whole, Diverged, NameClass;
    assert Whole(w)[Before(w)..][s.index] == Whole(w)[k];
  }

  lemma InWord(s: State, f: bytes)
    requires Inv(s) && s.error == 0 && s.node.InMatch? && IsFieldWord(s.node.word)
    requires Before(s.node.word) + s.index <= |Whole(s.node.word)|
             && f == Whole(s.node.word)[..Before(s.node.word) + s.index]
    ensures InName(s, f)
  {
    hide Sequence, Whole, Diverged, NameClass;
  }

  /** The last byte of a word. */
  lemma WordDone(s: State, w: MatchNode) returns (u: State)
    requires Inv(s) && s.error == 0 && IsFieldWord(w)
    ensures u == Matched(s.(index := 0), w) && InName(u, Whole(w)) && SameBut(s, u)
  {
    u := Matched(s.(index := 0), w);
    if w != HeaderField1 {
      WholeKnown(w);
      hide Whole, Diverged, NameClass, Matched, Sequence;
    }
  }

  lemma MatchReads(s: State, f: bytes, c: byte) returns (u: State)
    requires InName(s, f) && s.node.InMatch? && IsTchar(c)
    ensures Inv(s) && s.error == 0 && InName(u, f + [ToLower(c)]) && Reads(s, c, u) && SameBut(s, u)
  {
    hide *;
    var w, k := WordParts(s, f);
    var g := f + [ToLower(c)];
    if ToLower(c) == Sequence(w)[s.index] {
      assert g == Whole(w)[..k + 1];
      MatchTaken(s, c);
      if s.index + 1 < |Sequence(w)| {
        u := s.(index := s.index + 1);
        IndexKept(s, u);
        InWord(u, g);
      } else {
        assert g == Whole(w);
        u := WordDone(s, w);
      }
    } else {
      Leaves(w, k, ToLower(c));
      MatchLeft(s, c);
      GeneralReads(s, g, c);
      u := General(s);
    }
    ReadsIs(s, c, u);
  }

  lemma IndexKept(s: State, u: State)
    requires Inv(s) && s.error == 0 && s.node.InMatch? && s.index + 1 < |Sequence(s.node.word)|
             && u == s.(index := s.index + 1)
    ensures Inv(u) && u.error == 0 && SameBut(s, u)
  {
    hide Sequence;
  }

  lemma ReadsIs(s: State, c: byte, u: State)
    requires Inv(s) && s.error == 0
    requires || Step(s, c) == Out(u, true, [Data(Field)])
             || (Step(s, c) == Out(General(s), false, []) && Inv(u) && u.error == 0 && u == General(s)
                 && Step(u, c) == Out(u, true, [Data(Field)]))
    ensures Reads(s, c, u)
  {
    hide Step, Inv;
  }

  lemma MatchTaken(s: State, c: byte)
    requires Inv(s) && s.error == 0 && s.node.InMatch? && IsFieldWord(s.node.word)
             && ToLower(c) == Sequence(s.node.word)[s.index]
    ensures Step(s, c) == Out(if s.index + 1 == |Sequence(s.node.word)| then Matched(s.(index := 0), s.node.word)
                              else s.(index := s.index + 1), true, [Data(Field)])
  {
    hide Sequence, ToLower;
  }

  lemma MatchLeft(s: State, c: byte)
    requires Inv(s) && s.error == 0 && s.node.InMatch? && IsFieldWord(s.node.word)
             && ToLower(c) != Sequence(s.node.word)[s.index]
    ensures Step(s, c) == Out(General(s), false, [])
  {
    hide Sequence, ToLower;
  }

  lemma FirstReads(s: State, c: byte) returns (u: State)
    requires Inv(s) && s.error == 0 && s.node == InField(HeaderField) && IsTchar(c)
    ensures InName(u, [ToLower(c)]) && Reads(s, c, u) && SameBut(s, u)
  {
    var l := ToLower(c);
    if l == 99 || l == 112 || l == 116 || l == 117 {
      var w := if l == 99 then HeaderField1 else if l == 112 then HeaderField5 else if l == 116 then HeaderField6
               else HeaderField7;
      u := s.(node := InMatch(w));
      WholeIs(w);
      FirstTaken(s, c, w);
      assert [l] == Whole(w)[..1];
    } else {
      FirstApart(l);
      FirstLeft(s, c);
      GeneralReads(s, [l], c);
      u := General(s);
      hide Diverged, ToLower, Step;
    }
  }

  lemma FirstTaken(s: State, c: byte, w: MatchNode)
    requires Inv(s) && s.error == 0 && s.node == InField(HeaderField)
    requires w == (if ToLower(c) == 99 then HeaderField1 else if ToLower(c) == 112 then HeaderField5
                   else if ToLower(c) == 116 then HeaderField6 else HeaderField7)
    requires ToLower(c) == 99 || ToLower(c) == 112 || ToLower(c) == 116 || ToLower(c) == 117
    ensures Step(s, c) == Out(s.(node := InMatch(w)), true, [Data(Field)]) && Inv(s.(node := InMatch(w)))
            && s.index == 0
  {
    hide ToLower;
  }

  lemma FirstLeft(s: State, c: byte)
    requires Inv(s) && s.error == 0 && s.node == InField(HeaderField)
    requires ToLower(c) != 99 && ToLower(c) != 112 && ToLower(c) != 116 && ToLower(c) != 117
    ensures Step(s, c) == Out(General(s), false, [])
  {
    hide ToLower, Sequence;
  }

  lemma SecondReads(s: State, c: byte) returns (u: State)
    requires Inv(s) && s.error == 0 && s.node == InField(HeaderField2) && IsTchar(c)
    ensures InName(u, CON + [ToLower(c)]) && Reads(s, c, u) && SameBut(s, u)
  {
    var l := ToLower(c);
    if l == 110 || l == 116 {
      var w := if l == 110 then HeaderField3 else HeaderField4;
      u := s.(node := InMatch(w));
      WholeIs(w);
      SecondStep(s, c);
      assert CON + [l] == Whole(w)[..4];
      InWord(u, CON + [l]);
      ReadsIs(s, c, u);
    } else {
      ConApart(l);
      SecondStep(s, c);
      GeneralReads(s, CON + [l], c);
      u := General(s);
      hide Diverged, ToLower, Step;
    }
  }

  lemma SecondStep(s: State, c: byte)
    requires Inv(s) && s.error == 0 && s.node == InField(HeaderField2)
    ensures ToLower(c) == 110 || ToLower(c) == 116 ==>
              var u := s.(node := InMatch(if ToLower(c) == 110 then HeaderField3 else HeaderField4));
              Step(s, c) == Out(u, true, [Data(Field)]) && Inv(u) && u.index == 0 && u.error == 0
    ensures ToLower(c) != 110 && ToLower(c) != 116 ==> Step(s, c) == Out(General(s), false, [])
  {
    hide ToLower;
  }

  lemma LaterReads(s: State, f: bytes, c: byte) returns (u: State)
    requires InName(s, f) && IsTchar(c)
             && (s.node == InField(HeaderFieldColon) || s.node == InField(HeaderFieldGeneral))
    ensures InName(u, f + [ToLower(c)]) && Reads(s, c, u) && SameBut(s, u)
  {
    var g := f + [ToLower(c)];
    LaterStep(s, c);
    if s.node == InField(HeaderFieldColon) {
      var w := ClassKnown(f);
      WholeApart(w, ToLower(c));
    } else {
      DivergedOn(f, ToLower(c));
    }
    GeneralReads(s, g, c);
    u := General(s);
    hide Diverged, ToLower, Step, NameClass, IsToken;
    ReadsIs(s, c, u);
  }

  lemma LaterStep(s: State, c: byte)
    requires Inv(s) && s.error == 0 && IsTchar(c)
    ensures s.node == InField(HeaderFieldColon) ==> Step(s, c) == Out(General(s), false, [])
    ensures s.node == InField(HeaderFieldGeneral) && s.headerState == 0 ==> s == General(s)
  {
    hide ToLower, Sequence;
  }

  /** Every byte of a name is read. */
  lemma NameReads(s: State, f: bytes, c: byte) returns (u: State)
    requires InName(s, f) && IsTchar(c)
    ensures Inv(s) && s.error == 0 && Inv(u) && u.error == 0
    ensures InName(u, f + [ToLower(c)]) && Reads(s, c, u) && SameBut(s, u)
  {
    hide Step, IsToken, Diverged, NameClass, ToLower, Whole, Sequence, Reads;
    if s.node.InMatch? {
      u := MatchReads(s, f, c);
    } else if s.node == InField(HeaderField) {
      u := FirstReads(s, c);
      assert [] + [ToLower(c)] == [ToLower(c)];
    } else if s.node == InField(HeaderField2) {
      u := SecondReads(s, c);
    } else {
      u := LaterReads(s, f, c);
    }
  }

  lemma InNameSpan(s: State, f: bytes)
    requires InName(s, f)
    ensures SpanOf(s) == Some(Field) && Inv(s) && s.error == 0
  {
    hide Sequence, Diverged, NameClass, Whole;
  }

  // ---- the colon ----

  function ColonState(s: State, f: bytes): State {
    s.(node := AtEdge(HeaderValueDiscardWs), index := 0, headerState := NameClass(f))
  }

  /** The colon after a name, which may first leave the known words. */
  lemma ColonStep(s: State, f: bytes)
    requires InName(s, f) && f != []
    ensures Inv(s) && s.error == 0
    ensures s.node == InField(HeaderFieldColon) ==> Step(s, COLON) == Out(ColonState(s, f), true, [End(Field, 0)])
    ensures s.node != InField(HeaderFieldColon) ==> NameClass(f) == 0
    ensures s.node != InField(HeaderFieldColon) && s.node != InField(HeaderFieldGeneral) ==>
              Step(s, COLON) == Out(General(s), false, [])
    ensures s.node == InField(HeaderFieldGeneral) ==> s == General(s)
  {
    hide Diverged, NameClass, ToLower;
    if s.node.InMatch? {
      var w, k := WordParts(s, f);
      PartUnknown(w, k);
      NoColon(w, s.index);
      MatchLeft(s, COLON);
    } else if s.node == InField(HeaderField2) {
      ConUnknown();
      SecondStep(s, COLON) by { ToLowerColon(); }
      ToLowerColon();
    } else if s.node == InField(HeaderFieldGeneral) {
      DivergedUnknown(f);
    }
  }

  lemma ToLowerColon()
    ensures ToLower(COLON) == COLON
  {
  }

  lemma NoColon(w: MatchNode, k: nat)
    requires IsFieldWord(w) && k < |Sequence(w)|
    ensures Sequence(w)[k] != ToLower(COLON)
  {
  }

  lemma GeneralColon(s: State, f: bytes)
    requires Inv(s) && s.error == 0 && s == General(s) && NameClass(f) == 0
    ensures var o := s.(node := InField(HeaderFieldGeneralOtherwise));
            && Inv(o) && SpanOf(o) == Some(Field) && Step(s, COLON) == Out(o, false, [])
            && Step(o, COLON) == Out(ColonState(s, f), true, [End(Field, 0)])
  {
    hide NameClass, Sequence;
  }

  // ---- runs ----

  lemma NameByte(a: Stage, t: bytes, b: Stage, r: bytes, f: bytes) returns (u: State)
    requires Leads(a, t, b, r) && r != [] && IsTchar(r[0]) && InName(b.s, f)
    ensures InName(u, f + [ToLower(r[0])]) && SameBut(b.s, u)
    ensures Leads(a, t, Stage(u, After(b.x, [r[0]]), b.from), r[1..])
  {
    hide *;
    u := NameReads(b.s, f, r[0]);
    InNameSpan(b.s, f);
    InNameSpan(u, f + [ToLower(r[0])]);
    ReadsHow(b.s, r[0], u);
    if Step(b.s, r[0]) == Out(u, true, [Data(Field)]) {
      TakeIn(a, t, b, r, u, Field);
    } else {
      MoveIn(a, t, b, r, u);
      TakeIn(a, t, Stage(u, b.x, b.from), r, u, Field);
    }
  }

  lemma ReadsHow(s: State, c: byte, u: State)
    requires Inv(s) && s.error == 0 && Reads(s, c, u)
    ensures Step(s, c) == Out(u, true, [Data(Field)])
            || (Step(s, c) == Out(u, false, []) && Inv(u) && u.error == 0 && Step(u, c) == Out(u, true, [Data(Field)]))
  {
    hide Step, Sequence;
  }

  predicate IsName(n: bytes) {
    n != [] && forall c | c in n :: IsTchar(c)
  }

  /** All the bytes of a name. */
  lemma {:induction false} NameRun(a: Stage, t: bytes, b: Stage, n: bytes, rest: bytes, f: bytes) returns (u: State)
    requires Leads(a, t, b, n + rest) && InName(b.s, f) && forall c | c in n :: IsTchar(c)
    ensures InName(u, f + Lowered(n)) && SameBut(b.s, u)
    ensures Leads(a, t, Stage(u, After(b.x, n), b.from), rest)
    decreases |n|
  {
    hide Leads, InName, IsTchar, SameBut, ToLower;
    if n == [] {
      u := b.s;
      assert n + rest == rest && f + Lowered(n) == f && After(b.x, n) == b.x;
      assert SameBut(b.s, u) by { SameAgain(b.s); }
    } else {
      var r := n + rest;
      assert r[0] == n[0] && r[1..] == n[1..] + rest;
      var m := NameByte(a, t, b, r, f);
      u := NameRun(a, t, Stage(m, After(b.x, [n[0]]), b.from), n[1..], rest, f + [ToLower(n[0])]);
      assert f + [ToLower(n[0])] + Lowered(n[1..]) == f + Lowered(n);
      assert b.x.buf + [n[0]] + n[1..] == b.x.buf + n;
      SameTwice(b.s, m, u);
    }
  }

  lemma SameAgain(s: State)
    ensures SameBut(s, s)
  {
  }

  lemma SameTwice(s: State, m: State, u: State)
    requires SameBut(s, m) && SameBut(m, u)
    ensures SameBut(s, u)
  {
  }

  lemma NameStarts(s: State, c: byte) returns (u: State, v: State)
    requires Inv(s) && s.error == 0 && s.node == InField(HeaderFieldStart) && IsTchar(c)
    ensures Inv(u) && u.error == 0 && v.error == 0 && InName(v, []) && SpanOf(s).None? && SpanOf(u).None?
    ensures Step(s, c) == Out(u, false, []) && Step(u, c) == Out(v, false, []) && SameBut(s, v)
  {
    hide Sequence, Diverged, NameClass;
    u := s.(node := InField(SpanStartHeaderField));
    v := s.(node := InField(HeaderField));
  }

  lemma ColonRun(a: Stage, t: bytes, b: Stage, f: bytes, rest: bytes)
    requires Leads(a, t, b, [COLON] + rest) && InName(b.s, f) && f != []
    ensures b.from <= |b.x.buf|
    ensures Leads(a, t, Outside(ColonState(b.s, f), OnPiece(After(b.x, [COLON]), Field, b.from, |b.x.buf| - b.from)),
                  rest)
  {
    hide *;
    var r := [COLON] + rest;
    FirstOf(COLON, rest);
    ColonStep(b.s, f);
    ColonOutside(b.s, f);
    if b.s.node == InField(HeaderFieldColon) {
      CloseOn(a, t, b, r, ColonState(b.s, f), Field);
    } else {
      var g := General(b.s);
      GeneralSpan(b.s, f);
      if b.s.node != InField(HeaderFieldGeneral) {
        MoveIn(a, t, b, r, g);
      }
      GeneralColon(g, f);
      var o := g.(node := InField(HeaderFieldGeneralOtherwise));
      MoveIn(a, t, Stage(g, b.x, b.from), r, o);
      CloseOn(a, t, Stage(o, b.x, b.from), r, ColonState(b.s, f), Field);
    }
  }

  lemma ColonOutside(s: State, f: bytes)
    ensures SpanOf(ColonState(s, f)).None? && ColonState(s, f).error == s.error
    ensures ColonState(General(s), f) == ColonState(s, f)
  {
    hide NameClass;
  }

  lemma GeneralSpan(s: State, f: bytes)
    requires InName(s, f)
    ensures Inv(General(s)) && General(s).error == 0 && SpanOf(General(s)) == Some(Field)
            && General(General(s)) == General(s)
  {
    hide Sequence, Diverged, NameClass, Whole;
  }

  lemma NameBegins(a: Stage, t: bytes, s: State, x: Context, r: bytes) returns (v: State)
    requires Leads(a, t, Outside(s, x), r) && s.node == InField(HeaderFieldStart) && r != [] && IsTchar(r[0])
    ensures InName(v, []) && SameBut(s, v) && Leads(a, t, Stage(v, x, |x.buf|), r)
  {
    hide *;
    LeadsSound(a, t, Outside(s, x), r);
    OutsideSound(s, x, r);
    var u;
    u, v := NameStarts(s, r[0]);
    MoveOn(a, t, s, x, r, u);
    MoveOn(a, t, u, x, r, v);
    OutsideIs(v, x);
  }

  /** The name of a header and its colon, without regard to case. */
  lemma FieldRun(a: Stage, t: bytes, s: State, x: Context, name: bytes, rest: bytes)
    requires Leads(a, t, Outside(s, x), name + ([COLON] + rest)) && s.node == InField(HeaderFieldStart) && IsName(name)
    ensures Leads(a, t, Outside(ColonState(s, Lowered(name)),
                                OnHeaderField(After(After(x, name), [COLON]), |x.buf|, |name|)), rest)
  {
    hide *;
    var after := [COLON] + rest;
    NameFacts(name);
    FirstIn(name, after);
    var v := NameBegins(a, t, s, x, name + after);
    var w := NameRun(a, t, Stage(v, x, |x.buf|), name, after, []);
    FieldEnds(a, t, Stage(w, After(x, name), |x.buf|), s, x, name, rest, v);
  }

  lemma FieldEnds(a: Stage, t: bytes, b: Stage, s: State, x: Context, name: bytes, rest: bytes, v: State)
    requires Leads(a, t, b, [COLON] + rest) && InName(b.s, [] + Lowered(name)) && name != []
    requires b.x == After(x, name) && b.from == |x.buf| && SameBut(s, v) && SameBut(v, b.s)
    ensures Leads(a, t, Outside(ColonState(s, Lowered(name)),
                                OnHeaderField(After(After(x, name), [COLON]), |x.buf|, |name|)), rest)
  {
    hide *;
    assert [] + Lowered(name) == Lowered(name);
    ColonRun(a, t, b, Lowered(name), rest);
    SameTwice(s, v, b.s);
    ColonSame(s, b.s, Lowered(name));
    FieldPiece(x, name);
  }

  lemma NameFacts(name: bytes)
    requires IsName(name)
    ensures name != [] && IsTchar(name[0]) && (forall c | c in name :: IsTchar(c)) && Lowered(name) != []
  {
    assert name[0] in name;
    assert |Lowered(name)| == |name|;
    hide IsTchar;
  }

  lemma FieldPiece(x: Context, name: bytes)
    ensures |After(x, name).buf| - |x.buf| == |name|
    ensures OnPiece(After(After(x, name), [COLON]), Field, |x.buf|, |name|) ==
            OnHeaderField(After(After(x, name), [COLON]), |x.buf|, |name|)
  {
    hide OnHeaderField;
  }

  lemma ColonSame(s: State, w: State, f: bytes)
    requires SameBut(s, w)
    ensures ColonState(w, f) == ColonState(s, f)
  {
    hide NameClass;
  }
}
