/** How the automaton reads lists of connection options (section 6.1 of RFC 7230). */
module HttpHeadToken {
  import opened Bytes
  import opened Llhttp
  import opened HttpContext
  import opened HttpBulk
  import opened HttpHead
  import opened HttpHeadName

  const COMMA: byte := 44
  const CLOSE: bytes := [99] + LOSE
  const KEEP_ALIVE: bytes := [107] + EEP_ALIVE

  predicate IsBlank(c: byte) { c == SP || c == TAB }

  // ---- lists of tokens ----

  /** Without the spaces at the end. */
  function Trimmed(f: bytes): (t: bytes)
    ensures t <= f
  {
    if f != [] && f[|f| - 1] == SP then Trimmed(f[..|f| - 1]) else f
  }

  /** One byte more of a token, in lower case; white space in front of it does not count. */
  function Grown(f: bytes, c: byte): bytes {
    if f == [] && IsBlank(c) then [] else f + [ToLower(c)]
  }

  /** The tokens of a comma-separated list, of whose first token f has been read. */
  function Tokens(f: bytes, v: bytes): seq<bytes>
    decreases |v|
  {
    if v == [] then [Trimmed(f)]
    else if v[0] == COMMA then [Trimmed(f)] + Tokens([], v[1..])
    else Tokens(Grown(f, v[0]), v[1..])
  }

  /** The flags for the tokens of a Connection header. */
  function TokenFlags(flags: Flags, ts: seq<bytes>): Flags {
    flags.(close := flags.close || CLOSE in ts, keepAlive := flags.keepAlive || KEEP_ALIVE in ts,
           connectionUpgrade := flags.connectionUpgrade || UPGRADE in ts)
  }

  lemma TokenFlagsOn(flags: Flags, t: bytes, ts: seq<bytes>)
    ensures TokenFlags(flags, [t] + ts) == TokenFlags(TokenFlags(flags, [t]), ts)
  {
  }

  /** A list is read piece by piece. */
  lemma {:induction false} TokensOfList(f: bytes, v: bytes, w: bytes)
    ensures Tokens(f, v + [COMMA] + w) == Tokens(f, v) + Tokens([], w)
    decreases |v|
  {
    var l := v + [COMMA] + w;
    if v == [] {
      assert l[1..] == w;
    } else {
      assert l[1..] == v[1..] + [COMMA] + w;
      hide Trimmed, Grown;
      if v[0] == COMMA {
        TokensOfList([], v[1..], w);
      } else {
        TokensOfList(Grown(f, v[0]), v[1..], w);
      }
    }
  }

  /** One token with blanks before it and spaces behind it. */
  lemma {:induction false} TokensOfOne(before: bytes, t: bytes, after: bytes)
    requires (forall c | c in before :: IsBlank(c)) && (forall c | c in after :: c == SP)
    requires t != [] && !IsBlank(t[0]) && t[|t| - 1] != SP && COMMA !in t
    ensures Tokens([], before + t + after) == [Lowered(t)]
    decreases |before|
  {
    var v := before + t + after;
    if before == [] {
      assert v == t + after;
      LoweredEnd(t);
      assert [] + Lowered(t) == Lowered(t);
      TokenRead([], t, after);
    } else {
      assert v[0] in before && v[1..] == before[1..] + t + after;
      assert forall c | c in before[1..] :: c in before;
      TokensOfOne(before[1..], t, after);
    }
  }

  /** Only spaces are ignored behind a token: with a tab behind it, close is another token. */
  lemma TabBehindOption()
    ensures Tokens([], CLOSE + [TAB]) == [CLOSE + [TAB]] && CLOSE !in Tokens([], CLOSE + [TAB])
  {
    var t := CLOSE + [TAB];
    assert [] + t + [] == t;
    TokensOfOne([], t, []);
    TabLowered();
    hide Tokens;
    assert |t| != |CLOSE|;
  }

  lemma TabLowered()
    ensures Lowered(CLOSE + [TAB]) == CLOSE + [TAB]
  {
    var t := [99, 108, 111, 115, 101, TAB];
    assert CLOSE + [TAB] == t;
    assert Lowered(t[5..]) == [TAB] && Lowered(t[4..]) == [101, TAB] && Lowered(t[3..]) == [115, 101, TAB];
    assert Lowered(t[2..]) == [111, 115, 101, TAB] && Lowered(t[1..]) == [108, 111, 115, 101, TAB];
  }

  lemma {:induction false} LoweredEnd(t: bytes)
    requires t != [] && t[|t| - 1] != SP
    ensures Lowered(t) != [] && Lowered(t)[|t| - 1] != SP
    decreases |t|
  {
    if |t| > 1 { LoweredEnd(t[1..]); }
  }

  lemma {:induction false} TokenRead(f: bytes, t: bytes, after: bytes)
    requires (forall c | c in after :: c == SP) && COMMA !in t && (f == [] ==> t != [] && !IsBlank(t[0]))
    requires f + Lowered(t) != [] && (f + Lowered(t))[|f + Lowered(t)| - 1] != SP
    ensures Tokens(f, t + after) == [f + Lowered(t)]
    decreases |t|
  {
    var v := t + after;
    if t == [] {
      assert v == after && f + Lowered(t) == f;
      TrailRead(f, after);
    } else {
      assert v[0] == t[0] && v[1..] == t[1..] + after && t[0] in t;
      assert f + [ToLower(t[0])] + Lowered(t[1..]) == f + Lowered(t);
      TokenRead(f + [ToLower(t[0])], t[1..], after);
      hide Trimmed, ToLower;
    }
  }

  lemma {:induction false} TrailRead(f: bytes, after: bytes)
    requires (forall c | c in after :: c == SP) && f != []
    ensures Tokens(f, after) == [Trimmed(f)]
    decreases |after|
  {
    if after != [] {
      assert after[0] in after && Grown(f, SP) == f + [SP];
      assert (f + [SP])[..|f|] == f;
      assert forall c | c in after[1..] :: c in after;
      TrailRead(f + [SP], after[1..]);
    }
  }

  // ---- reading a token ----

  predicate IsTokenWord(w: MatchNode) {
    w == HeaderValueConnection1 || w == HeaderValueConnection2 || w == HeaderValueConnection3
  }

  function WholeToken(w: MatchNode): (t: bytes)
    requires IsTokenWord(w)
  {
    match w
    case HeaderValueConnection1 => CLOSE
    case HeaderValueConnection2 => KEEP_ALIVE
    case HeaderValueConnection3 => UPGRADE
  }

  /** The header_state of a token that means something. */
  function TokenNumber(t: bytes): nat {
    if t == CLOSE then 6 else if t == KEEP_ALIVE then 5 else if t == UPGRADE then 7 else 0
  }

  /** A known word, or a token that starts like one. */
  predicate Overshoots(t: bytes) {
    CLOSE <= t || KEEP_ALIVE <= t || UPGRADE <= t
  }

  /** The header_state at the end of the token t, h being what it was at its start: a token that goes on behind a
      known word makes the parser forget that it reads a list. */
  function Means(h: nat, t: bytes): nat {
    if TokenNumber(t) != 0 then TokenNumber(t) else if Overshoots(t) then 0 else h
  }

  /** The header_state behind the comma after the token t. */
  function Goes(h: nat, t: bytes): nat {
    if TokenNumber(t) != 0 then 1 else Means(h, t)
  }

  /** The header_state at the end of a list. */
  function ListState(h: nat, ts: seq<bytes>): nat
    decreases |ts|
  {
    if ts == [] then h else if |ts| == 1 then Means(h, ts[0]) else ListState(Goes(h, ts[0]), ts[1..])
  }

  lemma OvershootsTrimmed(f: bytes)
    requires f != []
    ensures Overshoots(Trimmed(f)) <==> Overshoots(f)
    decreases |f|
  {
    if f[|f| - 1] == SP && |f| > 1 {
      var g := f[..|f| - 1];
      OvershootsTrimmed(g);
      OvershootsOn(g, SP);
      assert f == g + [SP];
      hide Overshoots;
    }
  }

  /** A byte that is no letter completes no word. */
  lemma OvershootsOn(f: bytes, c: byte)
    requires c == SP || !(f <= CLOSE || f <= KEEP_ALIVE || f <= UPGRADE)
    ensures Overshoots(f + [c]) <==> Overshoots(f)
  {
    assert CLOSE[|CLOSE| - 1] == KEEP_ALIVE[|KEEP_ALIVE| - 1] == UPGRADE[|UPGRADE| - 1] == 101;
    OvershootsWord(f, c, CLOSE);
    OvershootsWord(f, c, KEEP_ALIVE);
    OvershootsWord(f, c, UPGRADE);
  }

  lemma OvershootsWord(f: bytes, c: byte, w: bytes)
    requires w != [] && (c != w[|w| - 1] || !(f <= w))
    ensures w <= f + [c] <==> w <= f
  {
    var g := f + [c];
    assert g[..|f|] == f && g[|f|] == c;
  }

  /** f is not, and cannot become, a token that means something. */
  predicate LostToken(f: bytes) {
    && f != [] && !(f <= CLOSE) && !(f <= KEEP_ALIVE) && !(f <= UPGRADE) && TokenNumber(Trimmed(f)) == 0
  }

  /** The parser has read f of a token, at whose start header_state was h. */
  predicate InToken(s: State, f: bytes, h: nat) {
    && Inv(s) && s.error == 0 && h <= 1 && s.headerState == Means(h, Trimmed(f))
    && match s.node
       case InValue(n) =>
         || (n == HeaderValueConnection && f == [])
         || (n == HeaderValueConnectionWs && f != [] && TokenNumber(Trimmed(f)) != 0)
         || (n == HeaderValueConnectionToken && LostToken(f))
       case InMatch(w) =>
         IsTokenWord(w) && 1 + s.index <= |WholeToken(w)| && f == WholeToken(w)[..1 + s.index]
       case _ => false
  }

  lemma WholeTokenIs(w: MatchNode)
    requires IsTokenWord(w)
    ensures |WholeToken(w)| == 1 + |Sequence(w)| && WholeToken(w)[1..] == Sequence(w)
  {
  }

  lemma TrimmedIs(f: bytes)
    requires f != []
    ensures f[|f| - 1] != SP ==> Trimmed(f) == f
    ensures Trimmed(f + [SP]) == Trimmed(f)
  {
    assert (f + [SP])[..|f|] == f;
  }

  lemma TokenLetters(t: bytes)
    requires TokenNumber(t) != 0
    ensures t != [] && (t[0] == 99 || t[0] == 107 || t[0] == 117) && t[|t| - 1] == 101
    ensures (t[0] == 99 ==> t == CLOSE) && (t[0] == 107 ==> t == KEEP_ALIVE) && (t[0] == 117 ==> t == UPGRADE)
  {
  }

  lemma LostOn(f: bytes, c: byte)
    requires LostToken(f)
    ensures LostToken(f + [c]) && forall h :: Means(h, Trimmed(f + [c])) == Means(h, Trimmed(f))
  {
    var g := f + [c];
    TrimmedIs(f);
    TrimmedIs(g);
    OvershootsTrimmed(f);
    OvershootsTrimmed(g);
    OvershootsOn(f, c);
    if g <= CLOSE { DivergedPrefix(f, g, CLOSE); }
    if g <= KEEP_ALIVE { DivergedPrefix(f, g, KEEP_ALIVE); }
    if g <= UPGRADE { DivergedPrefix(f, g, UPGRADE); }
    hide Trimmed, Overshoots;
  }

  lemma NoWord(t: bytes)
    requires !(t <= CLOSE) && !(t <= KEEP_ALIVE) && !(t <= UPGRADE)
    ensures TokenNumber(t) == 0
  {
  }

  /** What differs from every known word it could continue is lost. */
  lemma NoWordIsLost(g: bytes)
    requires g != [] && !(g <= CLOSE) && !(g <= KEEP_ALIVE) && !(g <= UPGRADE)
    requires g[|g| - 1] != SP || TokenNumber(Trimmed(g)) == 0
    ensures LostToken(g)
  {
    TrimmedIs(g);
    NoWord(g);
    hide Trimmed, TokenNumber, CLOSE, KEEP_ALIVE, UPGRADE;
  }

  lemma PartOfWord(w: MatchNode, k: nat)
    requires IsTokenWord(w) && 1 <= k < |WholeToken(w)|
    ensures var f := WholeToken(w)[..k]; Trimmed(f) == f && TokenNumber(f) == 0 && f[0] == WholeToken(w)[0]
    ensures forall h :: Means(h, WholeToken(w)[..k]) == h
  {
    var f := WholeToken(w)[..k];
    TokenBytes(w, k - 1);
    TrimmedIs(f);
    NoOvershoot(w, f, k);
    hide Trimmed, Overshoots;
    assert f[0] == WholeToken(w)[0];
    if TokenNumber(f) != 0 {
      TokenLetters(f);
    }
  }

  lemma WordsApart(w: MatchNode, g: bytes, k: nat)
    requires IsTokenWord(w) && 1 <= k < |g| && k < |WholeToken(w)| && g[0] == WholeToken(w)[0]
             && g[k] != WholeToken(w)[k]
    ensures !(g <= CLOSE) && !(g <= KEEP_ALIVE) && !(g <= UPGRADE)
  {
  }

  /** What is shorter than the word it starts like, or differs from it, starts with no known word. */
  lemma NoOvershoot(w: MatchNode, g: bytes, k: nat)
    requires IsTokenWord(w) && 1 <= k < |WholeToken(w)| && g != [] && g[0] == WholeToken(w)[0]
    requires k < |g| ==> g[k] != WholeToken(w)[k]
    ensures !Overshoots(g)
  {
  }

  /** A token that leaves a known word is lost. */
  lemma LeavesToken(w: MatchNode, k: nat, c: byte)
    requires IsTokenWord(w) && 1 <= k < |WholeToken(w)| && c != WholeToken(w)[k]
    ensures LostToken(WholeToken(w)[..k] + [c])
    ensures forall h :: Means(h, Trimmed(WholeToken(w)[..k] + [c])) == h
  {
    hide *;
    var f, g := WholeToken(w)[..k], WholeToken(w)[..k] + [c];
    PartOfWord(w, k);
    TrimmedIs(f);
    assert g[0] == f[0] && g[k] == c;
    WordsApart(w, g, k);
    NoWordIsLost(g);
    NoOvershoot(w, g, k);
    LostKeeps(g);
  }

  /** A lost token that does not start with a known word changes nothing. */
  lemma LostKeeps(g: bytes)
    requires LostToken(g) && !Overshoots(g)
    ensures forall h :: Means(h, Trimmed(g)) == h
  {
    OvershootsTrimmed(g);
    hide Trimmed, Overshoots;
  }

  /** No byte of a known word is white space or a comma. */
  lemma TokenBytes(w: MatchNode, k: nat)
    requires IsTokenWord(w) && k < |WholeToken(w)|
    ensures !IsBlank(WholeToken(w)[k]) && WholeToken(w)[k] != COMMA && WholeToken(w)[k] > 32
  {
  }

  lemma WholeLost(f: bytes, c: byte)
    requires f != [] && TokenNumber(Trimmed(f)) != 0 && c != SP
    ensures LostToken(f + [c]) && forall h :: Means(h, Trimmed(f + [c])) == 0
  {
    var g := f + [c];
    TokenLetters(Trimmed(f));
    assert Trimmed(f)[0] == f[0] == g[0];
    assert g[|g| - 1] == c;
    TrimmedIs(g);
    assert |g| > |Trimmed(f)|;
    assert Trimmed(f) <= g;
    hide Trimmed;
  }

  lemma FirstLost(c: byte)
    requires c != 99 && c != 107 && c != 117 && !IsBlank(c)
    ensures LostToken([c]) && forall h :: Means(h, Trimmed([c])) == h
  {
    TrimmedIs([c]);
    assert [c][0] == c;
    hide Trimmed;
  }

  /** The state in which a token means nothing. */
  function Lost(s: State): State {
    s.(node := InValue(HeaderValueConnectionToken), index := 0,
       headerState := if s.node == InValue(HeaderValueConnectionWs) then 0 else s.headerState)
  }

  /** One byte of a token is read at once, or after giving it up. */
  predicate ReadsToken(s: State, c: byte, u: State)
    requires Inv(s) && s.error == 0
  {
    || Step(s, c) == Out(u, true, [Data(Value)])
    || (Step(s, c) == Out(u, false, []) && Inv(u) && u.error == 0 && Step(u, c) == Out(u, true, [Data(Value)]))
  }

  lemma LostReads(s: State, g: bytes, c: byte, h: nat)
    requires Inv(s) && s.error == 0 && LostToken(g) && IsValueByte(c) && c != COMMA
    requires h <= 1 && Lost(s).headerState == Means(h, Trimmed(g))
    ensures var u := Lost(s);
            InToken(u, g, h) && Inv(u) && u.error == 0 && Step(u, c) == Out(u, true, [Data(Value)]) && SameBut(s, u)
  {
    hide Sequence, LostToken, Means, Trimmed;
  }

  lemma TokenParts(s: State, f: bytes, h: nat) returns (w: MatchNode)
    requires InToken(s, f, h) && s.node.InMatch?
    ensures w == s.node.word && IsTokenWord(w) && f == WholeToken(w)[..1 + s.index] && Inv(s) && s.error == 0
    ensures h <= 1 && s.headerState == h
    ensures s.index < |Sequence(w)| && 1 + s.index < |WholeToken(w)|
            && WholeToken(w)[1 + s.index] == Sequence(w)[s.index]
    ensures |WholeToken(w)| == 1 + |Sequence(w)|
  {
    w := s.node.word;
    WholeTokenIs(w);
    PartOfWord(w, 1 + s.index);
    hide Sequence, WholeToken, LostToken, Means, Trimmed, TokenNumber;
    assert WholeToken(w)[1..][s.index] == WholeToken(w)[1 + s.index];
  }

  lemma InTokenWord(s: State, f: bytes, h: nat)
    requires Inv(s) && s.error == 0 && s.node.InMatch? && IsTokenWord(s.node.word) && s.headerState == h <= 1
    requires 1 + s.index < |WholeToken(s.node.word)| && f == WholeToken(s.node.word)[..1 + s.index]
    ensures InToken(s, f, h)
  {
    PartOfWord(s.node.word, 1 + s.index);
    hide Sequence, WholeToken, LostToken, Means, Trimmed, TokenNumber;
  }

  lemma TokenDone(s: State, w: MatchNode, h: nat) returns (u: State)
    requires Inv(s) && s.error == 0 && IsTokenWord(w) && h <= 1
    ensures u == Matched(s.(index := 0), w) && InToken(u, WholeToken(w), h) && SameBut(s, u)
  {
    u := Matched(s.(index := 0), w);
    TokenMeans(w);
    hide TokenNumber, Trimmed, Sequence, WholeToken, Overshoots;
  }

  lemma TokenMeans(w: MatchNode)
    requires IsTokenWord(w)
    ensures var t := WholeToken(w); t != [] && Trimmed(t) == t
    ensures TokenNumber(WholeToken(w)) ==
            match w case HeaderValueConnection1 => 6 case HeaderValueConnection2 => 5 case _ => 7
  {
    TokenBytes(w, |WholeToken(w)| - 1);
    TrimmedIs(WholeToken(w));
    hide Trimmed;
  }

  lemma TokenStep(s: State, c: byte)
    requires Inv(s) && s.error == 0 && s.node.InMatch? && IsTokenWord(s.node.word)
    ensures if ToLower(c) == Sequence(s.node.word)[s.index] then
              Step(s, c) == Out(if s.index + 1 == |Sequence(s.node.word)| then Matched(s.(index := 0), s.node.word)
                                else s.(index := s.index + 1), true, [Data(Value)])
            else Step(s, c) == Out(Lost(s), false, [])
  {
    hide Sequence, ToLower;
  }

  lemma WordReads(s: State, f: bytes, c: byte, h: nat) returns (u: State)
    requires InToken(s, f, h) && s.node.InMatch? && IsValueByte(c) && c != COMMA
    ensures Inv(s) && s.error == 0 && f != [] && InToken(u, f + [ToLower(c)], h) && ReadsToken(s, c, u) && SameBut(s, u)
  {
    hide *;
    var w := TokenParts(s, f, h);
    var g := f + [ToLower(c)];
    TokenStep(s, c);
    if ToLower(c) == Sequence(w)[s.index] {
      assert g == WholeToken(w)[..2 + s.index];
      if s.index + 1 < |Sequence(w)| {
        u := s.(index := s.index + 1);
        IndexKept(s, u);
        InTokenWord(u, g, h);
      } else {
        assert g == WholeToken(w);
        u := TokenDone(s, w, h);
      }
    } else {
      LeavesToken(w, 1 + s.index, ToLower(c));
      LostState(s);
      LostReads(s, g, c, h);
      u := Lost(s);
    }
    ReadsTokenIs(s, c, u);
  }

  lemma LostState(s: State)
    ensures Lost(s).headerState == if s.node == InValue(HeaderValueConnectionWs) then 0 else s.headerState
    ensures s.node.InMatch? ==> Lost(s).headerState == s.headerState
  {
  }

  lemma ReadsTokenIs(s: State, c: byte, u: State)
    requires Inv(s) && s.error == 0
    requires || Step(s, c) == Out(u, true, [Data(Value)])
             || (Step(s, c) == Out(u, false, []) && Inv(u) && u.error == 0 && Step(u, c) == Out(u, true, [Data(Value)]))
    ensures ReadsToken(s, c, u)
  {
    hide Step, Inv;
  }

  lemma StartStep(s: State, c: byte)
    requires Inv(s) && s.error == 0 && s.node == InValue(HeaderValueConnection) && c != COMMA
    ensures IsBlank(c) ==> Step(s, c) == Out(s, true, [Data(Value)])
    ensures !IsBlank(c) && (ToLower(c) == 99 || ToLower(c) == 107 || ToLower(c) == 117) ==>
              var w := if ToLower(c) == 99 then HeaderValueConnection1
                       else if ToLower(c) == 107 then HeaderValueConnection2
                       else HeaderValueConnection3;
              var u := s.(node := InMatch(w)); Step(s, c) == Out(u, true, [Data(Value)]) && Inv(u) && u.index == 0
    ensures !IsBlank(c) && ToLower(c) != 99 && ToLower(c) != 107 && ToLower(c) != 117 ==>
              Step(s, c) == Out(Lost(s), false, [])
  {
  }

  lemma LowerBlank(c: byte)
    ensures IsBlank(c) <==> IsBlank(ToLower(c))
    ensures c == SP <==> ToLower(c) == SP
  {
  }

  lemma StartReads(s: State, c: byte, h: nat) returns (u: State)
    requires InToken(s, [], h) && IsValueByte(c) && c != COMMA && s.node == InValue(HeaderValueConnection)
    ensures Inv(s) && s.error == 0 && InToken(u, Grown([], c), h) && ReadsToken(s, c, u) && SameBut(s, u)
  {
    StartStep(s, c);
    var l := ToLower(c);
    LowerBlank(c);
    assert [] + [l] == [l];
    NothingMeansNothing();
    hide Step, ToLower, LostToken, Sequence, Means, Trimmed, TokenNumber;
    if IsBlank(c) {
      u := s;
    } else if l == 99 || l == 107 || l == 117 {
      var w := if l == 99 then HeaderValueConnection1 else if l == 107 then HeaderValueConnection2
               else HeaderValueConnection3;
      u := s.(node := InMatch(w));
      FirstOfWord(w);
      WholeTokenIs(w);
      assert [l] == WholeToken(w)[..1];
    } else {
      FirstLost(l);
      LostReads(s, [l], c, h);
      u := Lost(s);
    }
  }

  lemma FirstOfWord(w: MatchNode)
    requires IsTokenWord(w)
    ensures 1 < |WholeToken(w)| && forall h :: Means(h, Trimmed(WholeToken(w)[..1])) == h
  {
    PartOfWord(w, 1);
    hide Means, Trimmed, TokenNumber;
  }

  lemma LaterStep(s: State, c: byte)
    requires Inv(s) && s.error == 0 && c != COMMA && IsValueByte(c)
    ensures s.node == InValue(HeaderValueConnectionWs) ==>
              Step(s, c) == if c == SP then Out(s, true, [Data(Value)]) else Out(Lost(s), false, [])
    ensures s.node == InValue(HeaderValueConnectionToken) && s.index == 0 ==> s == Lost(s)
  {
    hide Sequence;
  }

  lemma KnownReads(s: State, f: bytes, c: byte, h: nat) returns (u: State)
    requires InToken(s, f, h) && IsValueByte(c) && c != COMMA && s.node == InValue(HeaderValueConnectionWs)
    ensures Inv(s) && s.error == 0 && f != [] && InToken(u, f + [ToLower(c)], h) && ReadsToken(s, c, u) && SameBut(s, u)
  {
    LaterStep(s, c);
    LowerBlank(c);
    LostState(s);
    hide Step, ToLower, LostToken, Sequence, TokenNumber, Trimmed, Overshoots;
    if c == SP {
      u := s;
      TrimmedIs(f);
    } else {
      WholeLost(f, ToLower(c));
      hide Means;
      LostReads(s, f + [ToLower(c)], c, h);
      u := Lost(s);
    }
  }

  lemma UnknownReads(s: State, f: bytes, c: byte, h: nat) returns (u: State)
    requires InToken(s, f, h) && IsValueByte(c) && c != COMMA && s.node == InValue(HeaderValueConnectionToken)
    ensures Inv(s) && s.error == 0 && f != [] && InToken(u, f + [ToLower(c)], h) && ReadsToken(s, c, u) && SameBut(s, u)
  {
    LaterStep(s, c);
    LostOn(f, ToLower(c));
    LostState(s);
    hide Step, ToLower, TokenNumber, Trimmed, Sequence, Means;
    LostReads(s, f + [ToLower(c)], c, h);
    u := Lost(s);
  }

  lemma InTokenCases(s: State, f: bytes, h: nat)
    requires InToken(s, f, h)
    ensures Inv(s) && s.error == 0 && SpanOf(s) == Some(Value)
    ensures s.node.InMatch? || s.node == InValue(HeaderValueConnection) || s.node == InValue(HeaderValueConnectionWs)
            || s.node == InValue(HeaderValueConnectionToken)
    ensures s.node == InValue(HeaderValueConnection) ==> f == []
  {
    hide Sequence, LostToken, TokenNumber, WholeToken, Trimmed, Means;
  }

  lemma GrownIs(f: bytes, c: byte)
    requires f != []
    ensures Grown(f, c) == f + [ToLower(c)]
  {
  }

  /** Every byte of a token is read. */
  lemma TokenReads(s: State, f: bytes, c: byte, h: nat) returns (u: State)
    requires InToken(s, f, h) && IsValueByte(c) && c != COMMA
    ensures Inv(s) && s.error == 0 && InToken(u, Grown(f, c), h) && ReadsToken(s, c, u) && SameBut(s, u)
  {
    hide *;
    InTokenCases(s, f, h);
    if s.node.InMatch? {
      u := WordReads(s, f, c, h);
      GrownIs(f, c);
    } else if s.node == InValue(HeaderValueConnection) {
      u := StartReads(s, c, h);
    } else if s.node == InValue(HeaderValueConnectionWs) {
      u := KnownReads(s, f, c, h);
      GrownIs(f, c);
    } else {
      u := UnknownReads(s, f, c, h);
      GrownIs(f, c);
    }
  }

  // ---- the end of a token ----

  /** The parser behind the comma after a token. */
  function CommaState(s: State, f: bytes, h: nat): State {
    s.(node := InValue(HeaderValueConnection), index := 0, headerState := Goes(h, Trimmed(f)),
       flags := TokenFlags(s.flags, [Trimmed(f)]))
  }

  lemma NoFlags(flags: Flags, t: bytes)
    requires TokenNumber(t) == 0
    ensures TokenFlags(flags, [t]) == flags
  {
  }

  lemma StateFlags(s: State, t: bytes)
    requires TokenNumber(t) == s.headerState != 0
    ensures WithStateFlag(s) == s.(flags := TokenFlags(s.flags, [t]), headerState := 1)
  {
    TokensApart();
  }

  lemma TokensApart()
    ensures CLOSE != KEEP_ALIVE && CLOSE != UPGRADE && KEEP_ALIVE != UPGRADE
  {
    assert CLOSE[0] == 99 && KEEP_ALIVE[0] == 107 && UPGRADE[0] == 117;
  }

  lemma NothingMeansNothing()
    ensures TokenNumber(Trimmed([])) == 0 && forall h :: Means(h, Trimmed([])) == h
  {
  }

  lemma EndSteps(s: State, c: byte)
    requires Inv(s) && s.error == 0 && (c == COMMA || c == CR || c == LF) && s.headerState <= 7
    ensures s.node == InValue(HeaderValueConnection) ==> Step(s, c) == Out(Lost(s), false, [])
    ensures s.node.InMatch? && IsTokenWord(s.node.word) && ToLower(c) != Sequence(s.node.word)[s.index] ==>
              Step(s, c) == Out(Lost(s), false, [])
    ensures s.node == InValue(HeaderValueConnectionWs) ==>
              Step(s, c) == if c == COMMA then
                Out(WithStateFlag(s).(node := InValue(HeaderValueConnection)), true, [Data(Value)])
                            else Out(s.(node := AtEdge(HeaderValueOtherwise)), false, [])
    ensures s.node == InValue(HeaderValueConnectionToken) ==>
              Step(s, c) == if c == COMMA then Out(s.(node := InValue(HeaderValueConnection)), true, [Data(Value)])
                            else Out(s.(node := AtEdge(HeaderValueOtherwise)), false, [])
  {
    assert ToLower(c) == c;
    hide ToLower, Sequence, WithStateFlag;
    FlagKeeps(s);
  }

  lemma EndByte(w: MatchNode, k: nat, c: byte)
    requires IsTokenWord(w) && k < |Sequence(w)| && (c == COMMA || c == CR || c == LF)
    ensures ToLower(c) != Sequence(w)[k]
  {
    WholeTokenIs(w);
    assert Sequence(w)[k] == WholeToken(w)[1..][k] == WholeToken(w)[k + 1];
    TokenBytes(w, k + 1);
    hide Sequence, WholeToken;
  }

  /** A token that is no known word is given up at its end. */
  lemma EndsLost(s: State, f: bytes, c: byte, h: nat)
    requires InToken(s, f, h) && s.node != InValue(HeaderValueConnectionWs) && (c == COMMA || c == CR || c == LF)
    ensures Inv(s) && s.error == 0 && s.headerState == Means(h, Trimmed(f)) <= 1 && TokenNumber(Trimmed(f)) == 0
    ensures Inv(Lost(s)) && Lost(s).error == 0 && SpanOf(Lost(s)) == Some(Value)
            && Lost(s).node == InValue(HeaderValueConnectionToken)
    ensures s.node == InValue(HeaderValueConnectionToken) ==> s == Lost(s)
    ensures s.node != InValue(HeaderValueConnectionToken) ==> Step(s, c) == Out(Lost(s), false, [])
    ensures Lost(s) == s.(node := InValue(HeaderValueConnectionToken), index := 0)
  {
    hide Trimmed, TokenNumber, ToLower, Sequence, Step, WholeToken, Overshoots;
    NothingMeansNothing();
    if s.node.InMatch? {
      var w := TokenParts(s, f, h);
      PartOfWord(w, 1 + s.index);
      EndByte(w, s.index, c);
    }
    EndSteps(s, c);
  }

  /** The comma after a token. */
  lemma CommaRun(a: Stage, t: bytes, b: Stage, r: bytes, f: bytes, h: nat)
    requires Leads(a, t, b, r) && r != [] && r[0] == COMMA && InToken(b.s, f, h)
    ensures Goes(h, Trimmed(f)) <= 1 && InToken(CommaState(b.s, f, h), [], Goes(h, Trimmed(f)))
    ensures Leads(a, t, Stage(CommaState(b.s, f, h), After(b.x, [COMMA]), b.from), r[1..])
  {
    hide *;
    InTokenCases(b.s, f, h);
    CommaSteps(b.s, f, h);
    var v := CommaState(b.s, f, h);
    if b.s.node == InValue(HeaderValueConnectionWs) {
      TakeIn(a, t, b, r, v, Value);
    } else {
      EndsLost(b.s, f, COMMA, h);
      if b.s.node != InValue(HeaderValueConnectionToken) {
        MoveIn(a, t, b, r, Lost(b.s));
      }
      StageIs(b);
      TakeIn(a, t, Stage(Lost(b.s), b.x, b.from), r, v, Value);
    }
  }

  lemma StageIs(b: Stage)
    ensures b == Stage(b.s, b.x, b.from)
  {
  }

  lemma CommaSteps(s: State, f: bytes, h: nat)
    requires InToken(s, f, h)
    ensures Inv(s) && s.error == 0 && Goes(h, Trimmed(f)) <= 1
    ensures var v := CommaState(s, f, h);
            && InToken(v, [], Goes(h, Trimmed(f))) && v.error == 0 && SpanOf(v).Some?
            && (s.node == InValue(HeaderValueConnectionWs) ==> Step(s, COMMA) == Out(v, true, [Data(Value)]))
            && (s.node != InValue(HeaderValueConnectionWs) ==>
                  Inv(Lost(s)) && Lost(s).error == 0 && Step(Lost(s), COMMA) == Out(v, true, [Data(Value)]))
  {
    hide Trimmed, ToLower, Sequence, Step, WholeToken, LostToken, TokenFlags, WithStateFlag, Overshoots, TokenNumber;
    NothingMeansNothing();
    if s.node == InValue(HeaderValueConnectionWs) {
      EndSteps(s, COMMA) by { NumberSmall(Trimmed(f)); }
      StateFlags(s, Trimmed(f));
    } else {
      EndsLost(s, f, COMMA, h);
      NoFlags(s.flags, Trimmed(f));
      EndSteps(Lost(s), COMMA);
    }
  }

  lemma NumberSmall(t: bytes)
    ensures TokenNumber(t) <= 7
  {
  }

  /** The end of a list, where the last token still has to take effect. */
  function ListEnd(s: State, f: bytes, h: nat): State {
    s.(node := AtEdge(HeaderValueOtherwise), index := 0, headerState := Means(h, Trimmed(f)))
  }

  lemma StopSteps(s: State, f: bytes, c: byte, h: nat)
    requires InToken(s, f, h) && (c == CR || c == LF)
    ensures var e := ListEnd(s, f, h);
            && Inv(s) && s.error == 0 && Inv(e) && e.error == 0 && SpanOf(e).Some?
            && (s.node == InValue(HeaderValueConnectionWs) ==> Step(s, c) == Out(e, false, []))
            && (s.node != InValue(HeaderValueConnectionWs) ==>
                  Inv(Lost(s)) && Lost(s).error == 0 && Step(Lost(s), c) == Out(e, false, []))
  {
    hide Trimmed, ToLower, Sequence, Step, WholeToken, LostToken, TokenFlags, WithStateFlag, TokenNumber, Overshoots;
    NumberSmall(Trimmed(f));
    if s.node == InValue(HeaderValueConnectionWs) {
      EndSteps(s, c);
    } else {
      EndsLost(s, f, c, h);
      EndSteps(Lost(s), c);
    }
  }

  lemma StopRun(a: Stage, t: bytes, b: Stage, r: bytes, f: bytes, h: nat)
    requires Leads(a, t, b, r) && r != [] && (r[0] == CR || r[0] == LF) && InToken(b.s, f, h)
    ensures var e := ListEnd(b.s, f, h); Inv(e) && e.error == 0 && Leads(a, t, Stage(e, b.x, b.from), r)
  {
    hide *;
    InTokenCases(b.s, f, h);
    StopSteps(b.s, f, r[0], h);
    var e := ListEnd(b.s, f, h);
    if b.s.node == InValue(HeaderValueConnectionWs) {
      MoveIn(a, t, b, r, e);
    } else {
      EndsLost(b.s, f, r[0], h);
      StageIs(b);
      if b.s.node != InValue(HeaderValueConnectionToken) {
        MoveIn(a, t, b, r, Lost(b.s));
      }
      MoveIn(a, t, Stage(Lost(b.s), b.x, b.from), r, e);
    }
  }

  lemma TokenByte(a: Stage, t: bytes, b: Stage, r: bytes, f: bytes, h: nat) returns (u: State)
    requires Leads(a, t, b, r) && r != [] && IsValueByte(r[0]) && r[0] != COMMA && InToken(b.s, f, h)
    ensures InToken(u, Grown(f, r[0]), h) && SameBut(b.s, u)
    ensures Leads(a, t, Stage(u, After(b.x, [r[0]]), b.from), r[1..])
  {
    hide *;
    u := TokenReads(b.s, f, r[0], h);
    InTokenCases(b.s, f, h);
    InTokenCases(u, Grown(f, r[0]), h);
    ReadsTokenHow(b.s, r[0], u);
    if Step(b.s, r[0]) == Out(u, true, [Data(Value)]) {
      TakeIn(a, t, b, r, u, Value);
    } else {
      MoveIn(a, t, b, r, u);
      TakeIn(a, t, Stage(u, b.x, b.from), r, u, Value);
    }
  }

  lemma ReadsTokenHow(s: State, c: byte, u: State)
    requires Inv(s) && s.error == 0 && ReadsToken(s, c, u)
    ensures Step(s, c) == Out(u, true, [Data(Value)])
            || (Step(s, c) == Out(u, false, []) && Inv(u) && u.error == 0 && Step(u, c) == Out(u, true, [Data(Value)]))
  {
    hide Step, Inv;
  }

  /** The state e reached at the end of a list has the flags that its tokens ts call for, once the last has
      taken effect. */
  predicate ListRead(s: State, e: State, ts: seq<bytes>, h: nat) {
    && e.node == AtEdge(HeaderValueOtherwise)
    && e == s.(node := e.node, index := 0, headerState := ListState(h, ts), flags := e.flags)
    && WithStateFlag(e).flags == TokenFlags(s.flags, ts) && e.headerState <= 7
  }

  lemma ListReadOne(s: State, f: bytes, h: nat)
    requires h <= 1
    ensures ListRead(s, ListEnd(s, f, h), [Trimmed(f)], h)
  {
    var e := ListEnd(s, f, h);
    hide Trimmed, TokenFlags, WithStateFlag, TokenNumber, Overshoots;
    NumberSmall(Trimmed(f));
    if TokenNumber(Trimmed(f)) == 0 {
      NoFlags(s.flags, Trimmed(f));
      NoStateFlags(e);
    } else {
      StateFlags(e, Trimmed(f));
    }
  }

  lemma NoStateFlags(e: State)
    requires e.headerState <= 1
    ensures WithStateFlag(e) == e
  {
  }

  lemma ListReadMore(s: State, e: State, f: bytes, h: nat, ts: seq<bytes>)
    requires ListRead(CommaState(s, f, h), e, ts, Goes(h, Trimmed(f))) && ts != []
    ensures ListRead(s, e, [Trimmed(f)] + ts, h)
  {
    hide Trimmed, TokenFlags, WithStateFlag, Goes, Means;
    assert ([Trimmed(f)] + ts)[1..] == ts;
    TokenFlagsOn(s.flags, Trimmed(f), ts);
  }

  lemma ListReadSame(s: State, m: State, e: State, ts: seq<bytes>, h: nat)
    requires SameBut(s, m) && ListRead(m, e, ts, h)
    ensures ListRead(s, e, ts, h)
  {
    hide TokenFlags, WithStateFlag, ListState;
  }

  lemma {:induction false} TokensSome(f: bytes, v: bytes)
    ensures Tokens(f, v) != []
    decreases |v|
  {
    if v != [] && v[0] != COMMA {
      TokensSome(Grown(f, v[0]), v[1..]);
    }
  }

  lemma InTokenStart(s: State, f: bytes, h: nat)
    requires InToken(s, f, h)
    ensures h <= 1
  {
    hide Sequence, LostToken, TokenNumber, WholeToken, Trimmed, Means;
  }

  /** A whole list of tokens. */
  lemma {:induction false} TokensRun(a: Stage, t: bytes, b: Stage, v: bytes, after: bytes, f: bytes, h: nat)
    returns (e: State)
    requires Leads(a, t, b, v + after) && InToken(b.s, f, h) && (forall c | c in v :: IsValueByte(c))
    requires after != [] && (after[0] == CR || after[0] == LF)
    ensures ListRead(b.s, e, Tokens(f, v), h) && Inv(e) && e.error == 0
    ensures Leads(a, t, Stage(e, After(b.x, v), b.from), after)
    decreases |v|
  {
    hide Leads, InToken, ListRead, Inv, Trimmed, Grown, CommaState, SameBut, ListEnd, IsValueByte, Goes;
    var r := v + after;
    if v == [] {
      assert r == after && After(b.x, v) == b.x;
      StopRun(a, t, b, r, f, h);
      InTokenStart(b.s, f, h);
      ListReadOne(b.s, f, h);
      e := ListEnd(b.s, f, h);
    } else {
      assert r[0] == v[0] && r[1..] == v[1..] + after && v[0] in v;
      assert forall c | c in v[1..] :: c in v;
      AfterOn(b.x, v);
      if v[0] == COMMA {
        CommaRun(a, t, b, r, f, h);
        var m := CommaState(b.s, f, h);
        e := TokensRun(a, t, Stage(m, After(b.x, [COMMA]), b.from), v[1..], after, [], Goes(h, Trimmed(f)));
        TokensSome([], v[1..]);
        ListReadMore(b.s, e, f, h, Tokens([], v[1..]));
      } else {
        var m := TokenByte(a, t, b, r, f, h);
        e := TokensRun(a, t, Stage(m, After(b.x, [v[0]]), b.from), v[1..], after, Grown(f, v[0]), h);
        ListReadSame(b.s, m, e, Tokens(f, v), h);
      }
    }
  }

  lemma AfterOn(x: Context, v: bytes)
    requires v != []
    ensures After(After(x, [v[0]]), v[1..]) == After(x, v)
  {
    assert x.buf + [v[0]] + v[1..] == x.buf + v;
  }
}
