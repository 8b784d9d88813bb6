/** Steps of the automaton that consume many bytes at once: the match of a known word, and the
    body of a known length. */
module HttpBulk {
  import opened Bytes
  import opened Llhttp
  import opened HttpContext
  import opened HttpSpan

  // ---- runs of bytes that leave the parser where it is ----

  function After(x: Context, t: bytes): Context {
    x.(buf := x.buf + t)
  }

  function FromAfter(s: State, x: Context, from: nat, n: nat): nat {
    if SpanOf(s).Some? then from else |x.buf| + n
  }

  /** A byte that is consumed without leaving the span. */
  lemma Stays(s: State, x: Context, from: nat, c: byte)
    requires Cut(s, x, from) && Inv(s) && s.error == 0
    requires var o := Step(s, c);
             o.eaten && o.s.error == 0 && SpanOf(o.s) == SpanOf(s)
             && Perform(Grow(x, c), o.items, from, |x.buf|) == Grow(x, c)
    ensures var o := Step(s, c); var y := FromAfter(s, x, from, 1);
            && Cut(o.s, After(x, [c]), y)
            && Absorb(Virtual(s, x, from), c) == Virtual(o.s, After(x, [c]), y)
  {
    DispatchCut(s, x, from, c);
    Dispatched(s, x, from, c);
    hide Step, Within, Inv, Perform, SpanOf, Absorb, Cut, Extent;
    assert DispatchContext(s, x, from, c) == After(x, [c]);
  }

  lemma MatchStep(s: State, c: byte)
    requires Inv(s) && s.error == 0 && s.node.InMatch?
    requires Folded(FoldingOf(s.node.word), c) == Sequence(s.node.word)[s.index]
    requires s.index + 1 < |Sequence(s.node.word)|
    ensures Step(s, c) == Eat(s.(index := s.index + 1), s.node)
    ensures Step(s, c).s == s.(index := s.index + 1)
    ensures SpanOf(Step(s, c).s) == SpanOf(s)
    ensures forall x, from, p :: Perform(x, Step(s, c).items, from, p) == x
  {
    hide Sequence, Folded, FoldingOf, Apply, IsValueWord;
  }

  /** The bytes of t continue the partial match of s. */
  predicate Continues(s: State, t: bytes)
    requires s.node.InMatch?
  {
    && s.index + |t| < |Sequence(s.node.word)|
    && (forall j | 0 <= j < |t| :: Folded(FoldingOf(s.node.word), t[j]) == Sequence(s.node.word)[s.index + j])
  }

  lemma MatchedOne(s: State, x: Context, from: nat, t: bytes)
    requires Cut(s, x, from) && s.node.InMatch? && t != [] && Continues(s, t)
    ensures var u, y := s.(index := s.index + 1), FromAfter(s, x, from, 1);
            && Cut(u, After(x, [t[0]]), y) && Continues(u, t[1..]) && SpanOf(u) == SpanOf(s)
            && Absorb(Virtual(s, x, from), t[0]) == Virtual(u, After(x, [t[0]]), y)
  {
    hide Step, Within, Sequence, Folded, FoldingOf, Rank, Virtual, Absorb, SpanOf;
    MatchStep(s, t[0]);
    Stays(s, x, from, t[0]);
    ContinuesOn(s, t);
  }

  lemma AfterStep(s: State, x: Context, from: nat, t: bytes)
    requires t != []
    ensures After(After(x, [t[0]]), t[1..]) == After(x, t)
    ensures FromAfter(s, After(x, [t[0]]), FromAfter(s, x, from, 1), |t| - 1) == FromAfter(s, x, from, |t|)
    ensures After(x, []) == x
  {
    assert [t[0]] + t[1..] == t;
    hide SpanOf;
  }

  lemma CutVirtual(s: State, x: Context, from: nat)
    requires Cut(s, x, from)
    ensures Virtual(s, x, from).parser == s && Inv(s) && s.error == 0 && from <= |x.buf|
            && FromAfter(s, x, from, 0) == from && After(x, []) == x
    ensures AbsorbAll(Virtual(s, x, from), []) == Virtual(s, x, from)
  {
    hide Extent, Within, SpanOf;
  }

  /** Bytes that continue a partial match only move its index. */
  lemma {:induction false} MatchedRun(s: State, x: Context, from: nat, t: bytes)
    requires Cut(s, x, from) && s.node.InMatch? && Continues(s, t)
    ensures var u, y := s.(index := s.index + |t|), FromAfter(s, x, from, |t|);
            && Inv(s) && SpanOf(u) == SpanOf(s)
            && Cut(u, After(x, t), y)
            && AbsorbAll(Virtual(s, x, from), t) == Virtual(u, After(x, t), y)
    decreases |t|
  {
    hide *;
    CutVirtual(s, x, from);
    if t != [] {
      MatchedOne(s, x, from, t);
      var u, y := s.(index := s.index + 1), FromAfter(s, x, from, 1);
      AbsorbAllStep(Virtual(s, x, from), t);
      AfterStep(s, x, from, t);
      MatchedRun(u, After(x, [t[0]]), y, t[1..]);
      SameSpan(s, u, After(x, [t[0]]), y, |t| - 1);
    }
  }

  lemma SameSpan(s: State, u: State, x: Context, from: nat, n: nat)
    requires SpanOf(s) == SpanOf(u)
    ensures FromAfter(s, x, from, n) == FromAfter(u, x, from, n)
  {
    hide SpanOf;
  }

  lemma ContinuesOn(s: State, t: bytes)
    requires s.node.InMatch? && t != [] && Continues(s, t)
    ensures Continues(s.(index := s.index + 1), t[1..])
  {
    hide Sequence, Folded, FoldingOf;
    forall j | 0 <= j < |t[1..]|
      ensures Folded(FoldingOf(s.node.word), t[1..][j]) == Sequence(s.node.word)[s.index + 1 + j]
    {
      assert t[1..][j] == t[j + 1];
    }
  }

  predicate Consuming(s: State) {
    s.node == InBody(ConsumeContentLength) || s.node == InBody(ConsumeContentLength1)
  }

  lemma ConsumeStep(s: State, c: byte)
    requires Inv(s) && s.error == 0 && Consuming(s) && s.contentLength > 1
    ensures Step(s, c).eaten && Step(s, c).s == s.(contentLength := s.contentLength - 1)
    ensures SpanOf(Step(s, c).s) == SpanOf(s)
    ensures forall x, from, p :: Perform(x, Step(s, c).items, from, p) == x
  {
    hide Apply;
  }

  lemma ConsumedOne(s: State, x: Context, from: nat, c: byte)
    requires Cut(s, x, from) && Consuming(s) && s.contentLength > 1
    ensures var u := s.(contentLength := s.contentLength - 1);
            && Cut(u, After(x, [c]), from) && Consuming(u) && SpanOf(u) == SpanOf(s) && from <= |x.buf|
            && Absorb(Virtual(s, x, from), c) == Virtual(u, After(x, [c]), from)
  {
    hide Step, Within, Rank, Virtual, Absorb, Sequence;
    ConsumeStep(s, c);
    Stays(s, x, from, c);
    assert SpanOf(s) == Some(Body);
  }

  lemma BodySpan(s: State)
    requires Consuming(s)
    ensures SpanOf(s) == Some(Body)
  {
  }

  /** Bytes of a body before its last only count down. */
  lemma {:induction false} ConsumedRun(s: State, x: Context, from: nat, t: bytes)
    requires Cut(s, x, from) && Consuming(s) && |t| < s.contentLength
    ensures var u := s.(contentLength := s.contentLength - |t|);
            && Inv(s) && SpanOf(u) == SpanOf(s) == Some(Body) && from <= |x.buf|
            && Cut(u, After(x, t), from)
            && AbsorbAll(Virtual(s, x, from), t) == Virtual(u, After(x, t), from)
    decreases |t|
  {
    hide *;
    CutVirtual(s, x, from);
    BodySpan(s);
    if t != [] {
      ConsumedOne(s, x, from, t[0]);
      AbsorbAllStep(Virtual(s, x, from), t);
      AfterStep(s, x, from, t);
      ConsumedRun(s.(contentLength := s.contentLength - 1), After(x, [t[0]]), from, t[1..]);
    }
  }

  // ---- the end of a match ----

  /** What a completed or failed match makes of the parser, whose index is back at 0. */
  function Settled(s: State, matched: bool): State
    requires s.node.InMatch?
  {
    if matched then Matched(s, s.node.word) else Mismatched(s, s.node.word).s
  }

  lemma SettleStep(s: State, c: byte, matched: bool)
    requires Inv(s) && s.error == 0 && s.node.InMatch?
    requires matched <==> Folded(FoldingOf(s.node.word), c) == Sequence(s.node.word)[s.index]
    requires matched ==> s.index + 1 == |Sequence(s.node.word)|
    ensures Step(s, c).s == Settled(s.(index := 0), matched)
    ensures Step(s, c).eaten == matched
    ensures SpanOf(Step(s, c).s) == if Step(s, c).s.error == 0 then SpanOf(s) else None
    ensures forall x, from, p :: Perform(x, Step(s, c).items, from, p) == x
  {
    hide Sequence, Folded, FoldingOf, Apply;
  }

  lemma SettleDispatch(s: State, x: Context, from: nat, c: byte, matched: bool)
    requires Cut(s, x, from) && s.node.InMatch?
    requires matched <==> Folded(FoldingOf(s.node.word), c) == Sequence(s.node.word)[s.index]
    requires matched ==> s.index + 1 == |Sequence(s.node.word)|
    ensures DispatchContext(s, x, from, c) == if matched then After(x, [c]) else x
    ensures Step(s, c).s.error == 0 ==> DispatchFrom(s, x, from, c) == FromAfter(s, x, from, if matched then 1 else 0)
  {
    hide Sequence, Folded, FoldingOf, Step, Within, SpanOf, Perform, Rank, IsValueNode;
    SettleStep(s, c, matched);
  }

  /** A match that ends, seen from the whole input. */
  lemma MatchEnds(s: State, x: Context, from: nat, t: bytes, matched: bool)
    requires Cut(s, x, from) && s.node.InMatch? && t != []
    requires matched <==> Folded(FoldingOf(s.node.word), t[0]) == Sequence(s.node.word)[s.index]
    requires matched ==> s.index + 1 == |Sequence(s.node.word)|
    ensures var w := Settled(s.(index := 0), matched); var n := if matched then 1 else 0;
            && Inv(s) && Virtual(s, x, from).parser == s && w.head == s.head
            && (w.error != 0 ==> AbsorbAll(Virtual(s, x, from), t).parser == w)
            && (w.error == 0 ==>
                  && Cut(w, After(x, t[..n]), FromAfter(s, x, from, n))
                  && (SpanOf(w).Some? <==> SpanOf(s).Some?)
                  && (!matched ==> Rank(w.node) < Rank(s.node))
                  && Inv(Virtual(w, After(x, t[..n]), FromAfter(s, x, from, n)).parser)
                  && AbsorbAll(Virtual(s, x, from), t)
                     == AbsorbAll(Virtual(w, After(x, t[..n]), FromAfter(s, x, from, n)), t[n..]))
  {
    hide *;
    FeedOne(s, x, from, t);
    SettleStep(s, t[0], matched);
    SettleDispatch(s, x, from, t[0], matched);
    StepKept(s, t[0]);
    SettledHead(s.(index := 0), matched);
    CutVirtual(s, x, from);
    assert t[..1] == [t[0]];
    assert t[0..] == t && t[..0] == [];
  }

  lemma SettledHead(s: State, matched: bool)
    requires s.node.InMatch?
    ensures Settled(s, matched).head == s.head
  {
  }

  lemma StepKept(s: State, c: byte)
    requires Inv(s) && s.error == 0
    ensures !Step(s, c).eaten && Step(s, c).s.error == 0 ==> Rank(Step(s, c).s.node) < Rank(s.node)
  {
    hide Step, Inv, Rank;
    StepKeeps(s, c);
  }

  /** A match that ends m bytes into the input. */
  lemma MatchFed(s: State, x: Context, from: nat, t: bytes, m: nat, matched: bool)
    requires Cut(s, x, from) && s.node.InMatch? && m < |t| && Continues(s, t[..m])
    requires matched <==> Folded(FoldingOf(s.node.word), t[m]) == Sequence(s.node.word)[s.index + m]
    requires matched ==> s.index + m + 1 == |Sequence(s.node.word)|
    ensures var w := Settled(s.(index := 0), matched); var n := if matched then m + 1 else m;
            && Inv(s) && Virtual(s, x, from).parser == s && w.head == s.head
            && (w.error != 0 ==> AbsorbAll(Virtual(s, x, from), t).parser == w)
            && (w.error == 0 ==>
                  && Cut(w, After(x, t[..n]), FromAfter(s, x, from, n))
                  && (SpanOf(w).Some? <==> SpanOf(s).Some?)
                  && (!matched ==> Rank(w.node) < Rank(s.node))
                  && Inv(Virtual(w, After(x, t[..n]), FromAfter(s, x, from, n)).parser)
                  && AbsorbAll(Virtual(s, x, from), t)
                     == AbsorbAll(Virtual(w, After(x, t[..n]), FromAfter(s, x, from, n)), t[n..]))
  {
    hide *;
    var u, y, f := s.(index := s.index + m), After(x, t[..m]), FromAfter(s, x, from, m);
    MatchedRun(s, x, from, t[..m]);
    CutVirtual(s, x, from);
    assert t == t[..m] + t[m..];
    SplitInvariance(Virtual(s, x, from), t[..m], t[m..]);
    MatchEnds(u, y, f, t[m..], matched);
    var k := if matched then 1 else 0;
    AfterParts(s, u, x, from, t, m, k);
    assert u.(index := 0) == s.(index := 0);
  }

  lemma AfterParts(s: State, u: State, x: Context, from: nat, t: bytes, m: nat, k: nat)
    requires m + k <= |t| && u == s.(index := s.index + m) && s.node.InMatch?
    ensures After(After(x, t[..m]), t[m..][..k]) == After(x, t[..m + k])
    ensures t[m..][k..] == t[m + k..]
    ensures FromAfter(u, After(x, t[..m]), FromAfter(s, x, from, m), k) == FromAfter(s, x, from, m + k)
    ensures SpanOf(u) == SpanOf(s)
  {
    assert t[..m] + t[m..][..k] == t[..m + k];
    hide IsValueWord;
  }

  // ---- the end of a body ----

  function Completed(x: Context): Context {
    x.(parsing := HTTP_PARSING_COMPLETE, completions := x.completions + 1)
  }

  /** The response once all n remaining bytes of a body or chunk are there. */
  function Delivered(s: State, x: Context, from: nat): Context {
    var y := if from <= |x.buf| then OnPiece(x, Body, from, |x.buf| - from) else x;
    if s.node == InBody(ConsumeContentLength) then y else Completed(y)
  }

  /** The parser once a body or chunk is consumed. */
  function BodyDone(s: State): State {
    if s.node == InBody(ConsumeContentLength) then s.(node := InBody(ChunkDataAlmostDone), contentLength := 0)
    else MessageComplete(s.(contentLength := 0))
  }

  lemma LastByte(s: State, c: byte)
    requires Inv(s) && s.error == 0 && Consuming(s) && s.contentLength == 1
    ensures Step(s, c).eaten && Step(s, c).s == BodyDone(s)
    ensures Step(s, c).items ==
            [Data(Body), End(Body, 1)] + (if s.node == InBody(ConsumeContentLength) then [] else [Done])
    ensures SpanOf(BodyDone(s)).None?
  {
    hide ShouldKeepAlive, Sequence;
  }

  lemma LastDispatch(s: State, x: Context, from: nat, c: byte)
    requires Cut(s, x, from) && Consuming(s) && s.contentLength == 1
    ensures DispatchContext(s, x, from, c) == Delivered(s, After(x, [c]), from)
    ensures DispatchFrom(s, x, from, c) == |DispatchContext(s, x, from, c).buf|
  {
    hide Step, Within, SpanOf, OnPiece, Rank, IsValueNode;
    LastByte(s, c);
    var rest := if s.node == InBody(ConsumeContentLength) then [] else [Done];
    PerformThree(After(x, [c]), Body, rest, from, |x.buf|);
    assert Grow(x, c) == After(x, [c]);
  }

  /** A body that ends within the input. */
  lemma BodyFed(s: State, x: Context, from: nat, t: bytes)
    requires Cut(s, x, from) && Consuming(s) && s.contentLength <= |t|
    ensures var w, n := BodyDone(s), s.contentLength; var z := Delivered(s, After(x, t[..n]), from);
            && Inv(s) && Virtual(s, x, from).parser == s && 0 < n && w.head == s.head && SpanOf(s) == Some(Body)
            && from <= |x.buf|
            && Within(After(x, t[..n]), from) && SpanOf(w).None? && |z.buf| == |x.buf| + n
            && (w.error != 0 ==> AbsorbAll(Virtual(s, x, from), t).parser == w)
            && (w.error == 0 ==>
                  && Cut(w, z, |z.buf|)
                  && Inv(Virtual(w, z, |z.buf|).parser)
                  && AbsorbAll(Virtual(s, x, from), t) == AbsorbAll(Virtual(w, z, |z.buf|), t[n..]))
  {
    hide *;
    CutVirtual(s, x, from);
    LengthLeft(s);
    var n := s.contentLength;
    var u, y, m := s.(contentLength := 1), After(x, t[..n - 1]), n - 1;
    ConsumedRun(s, x, from, t[..m]);
    assert t == t[..m] + t[m..];
    SplitInvariance(Virtual(s, x, from), t[..m], t[m..]);
    SameBody(s, u);
    FeedOne(u, y, from, t[m..]);
    LastByte(u, t[m]);
    LastDispatch(u, y, from, t[m]);
    DeliveredParts(s, u, x, from, t, m);
    DeliveredLength(s, x, from, t[..n]);
  }

  lemma DeliveredLength(s: State, x: Context, from: nat, t: bytes)
    requires Cut(s, x, from) && Consuming(s)
    ensures SpanOf(s) == Some(Body) && from <= |x.buf| && Within(After(x, t), from)
    ensures |Delivered(s, After(x, t), from).buf| == |x.buf| + |t|
  {
    hide OnPiece;
    PieceLength(After(x, t), Body, from, |After(x, t).buf| - from);
  }

  lemma LengthLeft(s: State)
    requires Inv(s) && s.error == 0 && Consuming(s)
    ensures 0 < s.contentLength
  {
    hide Sequence;
  }

  lemma SameBody(s: State, u: State)
    requires Consuming(s) && u == s.(contentLength := 1)
    ensures Consuming(u) && BodyDone(u) == BodyDone(s) && BodyDone(s).head == s.head
  {
    hide ShouldKeepAlive;
  }

  lemma DeliveredParts(s: State, u: State, x: Context, from: nat, t: bytes, m: nat)
    requires u == s.(contentLength := 1) && m < |t|
    ensures After(After(x, t[..m]), [t[m]]) == After(x, t[..m + 1])
    ensures forall y :: Delivered(u, y, from) == Delivered(s, y, from)
    ensures t[m..][1..] == t[m + 1..] && t[m..][0] == t[m]
  {
    assert t[..m] + [t[m]] == t[..m + 1];
    hide OnPiece;
  }
}
