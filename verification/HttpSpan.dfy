/** How the spans of the byte automaton open and close, and why delivering a span in one piece
    is the same as delivering it byte by byte. */
module HttpSpan {
  import opened Bytes
  import opened Llhttp
  import opened HttpContext

  /** The nodes where a header value may be reported. */
  predicate IsValueNode(n: Node) {
    n.AtEdge? || n.InValue? || (n.InMatch? && IsValueWord(n.word))
  }

  predicate Notices(items: seq<Item>) {
    forall i | 0 <= i < |items| :: !items[i].Data? && !items[i].End?
  }

  /** A span opens at a byte that is not consumed; inside it every consumed byte is data; it closes
      before the byte, or after the last byte of a body. */
  predicate Shaped(s: State, o: Out) {
    match SpanOf(s)
    case None =>
      if SpanOf(o.s).Some? then !o.eaten && o.items == []
      else (o.items == [End(Value, 0)] && IsValueNode(s.node)) || (Notices(o.items) && |o.items| <= 2)
    case Some(k) =>
      if SpanOf(o.s).Some? then SpanOf(o.s) == Some(k) && o.items == (if o.eaten then [Data(k)] else [])
      else
        || o.items == [End(k, 0)]
        || (o.eaten && (o.items == [Data(k), End(k, 1)] || o.items == [Data(k), End(k, 1), Done]))
  }

  /** A header value is read only once its field has been reported. */
  predicate FieldFirst(s: State, o: Out) {
    && (SpanOf(s) == Some(Value) ==> IsValueNode(s.node))
    && (IsValueNode(o.s.node) ==>
          || (SpanOf(s) == Some(Field) && o.items == [End(Field, 0)])
          || (IsValueNode(s.node) && (o.items == [] || o.items == [Data(Value)] || o.items == [End(Value, 0)])))
  }

  /** A dispatch that raises an error may still close the open span. */
  predicate ErrorShaped(s: State, o: Out) {
    match SpanOf(s)
    case None => Notices(o.items)
    case Some(k) =>
      && (k == Value ==> IsValueNode(s.node))
      && (|| o.items == []
          || o.items == [End(k, 0)]
          || o.items == [Data(k), End(k, 1)]
          || o.items == [Data(k), End(k, 1), Done])
  }

  predicate Disciplined(s: State, o: Out) {
    if o.s.error == 0 then Shaped(s, o) && FieldFirst(s, o) else ErrorShaped(s, o)
  }

  lemma LineDisciplined(s: State, n: LineNode, c: byte)
    requires s.node == InLine(n) && s.error == 0
    ensures Disciplined(s, StepLine(s, n, c))
  {
  }

  lemma FieldDisciplined(s: State, n: FieldNode, c: byte)
    requires s.node == InField(n) && s.error == 0
    ensures Disciplined(s, StepField(s, n, c))
  {
    hide ToLower, IsToken;
  }

  lemma FlagNode(s: State)
    ensures WithStateFlag(s).node == s.node && WithStateFlag(s).error == s.error
  {
  }

  lemma EdgeDisciplined(s: State, n: EdgeNode, c: byte)
    requires s.node == AtEdge(n) && s.error == 0
    ensures Disciplined(s, StepEdge(s, n, c))
  {
    hide WithStateFlag;
    FlagNode(s);
  }

  lemma ValueDisciplined(s: State, n: ValueNode, c: byte)
    requires s.node == InValue(n) && s.error == 0
    ensures Disciplined(s, StepValue(s, n, c))
  {
    hide WithStateFlag, ToLower, IsValueByte, MulAdd;
    FlagNode(s);
  }

  lemma MatchDisciplined(s: State, n: MatchNode, c: byte)
    requires s.node == InMatch(n) && s.error == 0 && s.index < |Sequence(n)|
    ensures Disciplined(s, StepMatch(s, n, c))
  {
    hide Folded, FoldingOf, Sequence;
  }

  lemma HeadersCompleteQuiet(s: State)
    requires s.error == 0
    ensures var (t, items) := HeadersComplete(s);
            SpanOf(t).None? && Notices(items) && |items| <= 2 && !IsValueNode(t.node)
  {
    hide MessageNeedsEof, ShouldKeepAlive;
  }

  lemma ConsumedDisciplined(s: State, n: BodyNode, c: byte)
    requires s.node == InBody(n) && s.error == 0 && (n == ConsumeContentLength || n == ConsumeContentLength1)
    ensures Disciplined(s, StepBody(s, n, c))
  {
    hide HeadersComplete, HexDigit, MulAdd, ShouldKeepAlive;
  }

  lemma BodyDisciplined(s: State, n: BodyNode, c: byte)
    requires s.node == InBody(n) && s.error == 0
    ensures Disciplined(s, StepBody(s, n, c))
  {
    hide HeadersComplete, HexDigit, MulAdd, ShouldKeepAlive, BodyConsumed;
    if n == ConsumeContentLength || n == ConsumeContentLength1 {
      ConsumedDisciplined(s, n, c);
    } else {
      HeadersCompleteQuiet(s);
    }
  }

  lemma StepDisciplined(s: State, c: byte)
    requires Inv(s) && s.error == 0
    ensures Disciplined(s, Step(s, c))
  {
    hide Disciplined, StepMatch, StepLine, StepField, StepEdge, StepValue, StepBody;
    match s.node
    case InLine(n) => LineDisciplined(s, n, c);
    case InField(n) => FieldDisciplined(s, n, c);
    case AtEdge(n) => EdgeDisciplined(s, n, c);
    case InValue(n) => ValueDisciplined(s, n, c);
    case InMatch(n) => MatchDisciplined(s, n, c);
    case InBody(n) => BodyDisciplined(s, n, c);
  }

  // ---- pieces ----

  /** The context once the bytes [from, to) of an open span are delivered as one piece. */
  function Extent(x: Context, k: Option<Kind>, from: nat, to: nat): Context {
    if k.Some? && from < to then OnPiece(x, k.value, from, to - from) else x
  }

  /** The callbacks of one dispatch at p when the span has been open since from. */
  function Perform(x: Context, items: seq<Item>, from: nat, p: nat): Context
    decreases |items|
  {
    if items == [] then x else Perform(PerformOne(x, items[0], from, p), items[1..], from, p)
  }

  function PerformOne(x: Context, it: Item, from: nat, p: nat): Context {
    match it
    case Data(_) => x
    case End(k, after) => if from <= p + after then OnPiece(x, k, from, p + after - from) else x
    case _ => Apply(x, it, p)
  }

  /** A parser at the end of the bytes in x, whose open span has been delivered up to from. */
  predicate Cut(s: State, x: Context, from: nat) {
    && Inv(s) && s.error == 0
    && from <= |x.buf| && Within(x, from)
    && (SpanOf(s).None? ==> from == |x.buf|)
    && (IsValueNode(s.node) ==> x.field.Some?)
  }

  /** The system that has been fed byte by byte, for a parser and a context that lag behind. */
  function Virtual(s: State, x: Context, from: nat): System {
    System(s, Extent(x, SpanOf(s), from, |x.buf|))
  }

  /** One dispatch of the lagging pair. */
  function DispatchContext(s: State, x: Context, from: nat, c: byte): Context
    requires Inv(s) && s.error == 0
  {
    var o := Step(s, c);
    Perform(if o.eaten then Grow(x, c) else x, o.items, from, |x.buf|)
  }

  function DispatchFrom(s: State, x: Context, from: nat, c: byte): nat
    requires Inv(s) && s.error == 0
  {
    if SpanOf(Step(s, c).s).Some? then from else |DispatchContext(s, x, from, c).buf|
  }

  lemma {:induction false} NoticesPerformed(x: Context, items: seq<Item>, p: nat)
    requires Notices(items)
    ensures Perform(x, items, p, p) == ApplyAll(x, items, p)
    decreases |items|
  {
    hide Apply;
    if items != [] {
      assert PerformOne(x, items[0], p, p) == Apply(x, items[0], p);
      NoticesPerformed(PerformOne(x, items[0], p, p), items[1..], p);
    }
  }

  lemma EndJoins(x: Context, k: Kind, from: nat, p: nat)
    requires Within(x, from) && from <= p <= |x.buf|
    ensures OnPiece(Extent(x, Some(k), from, p), k, p, 0) == OnPiece(x, k, from, p - from)
  {
    hide OnPiece;
    if from < p {
      PiecesJoin(x, k, from, p - from, 0);
    }
  }

  lemma DataJoins(x: Context, k: Kind, from: nat, p: nat)
    requires Within(x, from) && from <= p < |x.buf|
    ensures OnPiece(Extent(x, Some(k), from, p), k, p, 1) == OnPiece(x, k, from, p + 1 - from)
  {
    hide OnPiece;
    if from < p {
      PiecesJoin(x, k, from, p - from, 1);
    }
  }

  lemma ApplyOne(x: Context, it: Item, p: nat)
    ensures ApplyAll(x, [it], p) == Apply(x, it, p)
  {
  }

  lemma ApplyThree(x: Context, a: Item, b: Item, rest: seq<Item>, p: nat)
    ensures ApplyAll(x, [a, b] + rest, p) == ApplyAll(Apply(Apply(x, a, p), b, p), rest, p)
  {
    hide Apply;
    assert ([a, b] + rest)[1..] == [b] + rest;
    assert ([b] + rest)[1..] == rest;
  }

  lemma PerformThree(x: Context, k: Kind, rest: seq<Item>, from: nat, p: nat)
    requires from <= p + 1
    ensures Perform(x, [Data(k), End(k, 1)] + rest, from, p) ==
            Perform(OnPiece(x, k, from, p + 1 - from), rest, from, p)
  {
    hide Apply, OnPiece;
    assert ([Data(k), End(k, 1)] + rest)[1..] == [End(k, 1)] + rest;
    assert ([End(k, 1)] + rest)[1..] == rest;
  }

  /** A span that closes after its last byte. */
  lemma ConsumedMerges(x: Context, k: Kind, rest: seq<Item>, from: nat, p: nat)
    requires Within(x, from) && from <= p < |x.buf| && (rest == [] || rest == [Done])
    ensures ApplyAll(Extent(x, Some(k), from, p), [Data(k), End(k, 1)] + rest, p)
         == Perform(x, [Data(k), End(k, 1)] + rest, from, p)
  {
    hide *;
    var e := Extent(x, Some(k), from, p);
    ApplyThree(e, Data(k), End(k, 1), rest, p);
    PerformThree(x, k, rest, from, p);
    DataJoins(x, k, from, p);
    PiecesJoin(x, k, from, p + 1 - from, 0);
    DataApplied(e, k, p);
    EndApplied(OnPiece(e, k, p, 1), k, p, 1);
    RestPerformed(OnPiece(x, k, from, p + 1 - from), rest, from, p);
  }

  lemma DataApplied(x: Context, k: Kind, p: nat)
    ensures Apply(x, Data(k), p) == OnPiece(x, k, p, 1)
  {
  }

  lemma EndApplied(x: Context, k: Kind, p: nat, after: nat)
    ensures Apply(x, End(k, after), p) == OnPiece(x, k, p + after, 0)
  {
  }

  lemma RestPerformed(x: Context, rest: seq<Item>, from: nat, p: nat)
    requires rest == [] || rest == [Done]
    ensures Perform(x, rest, from, p) == ApplyAll(x, rest, p)
  {
  }

  /** Feeding the items to the byte-by-byte context is performing the callbacks on the lagging one. */
  lemma ItemsMerge(s: State, o: Out, x: Context, from: nat, p: nat)
    requires Shaped(s, o) && Within(x, from) && from <= p <= |x.buf|
    requires |x.buf| == (if o.eaten then p + 1 else p) && (SpanOf(s).None? ==> from == p)
    ensures var y := Perform(x, o.items, from, p);
            ApplyAll(Extent(x, SpanOf(s), from, p), o.items, p)
              == Extent(y, SpanOf(o.s), if SpanOf(o.s).Some? then from else |y.buf|, |y.buf|)
  {
    hide OnPiece, Apply, SpanOf, IsValueNode;
    if SpanOf(s).None? {
      if SpanOf(o.s).None? && Notices(o.items) {
        NoticesPerformed(x, o.items, p);
      } else if o.items == [End(Value, 0)] {
        EndApplied(x, Value, p, 0);
      }
    } else {
      MergesInside(s, o, x, SpanOf(s).value, from, p);
    }
  }

  lemma MergesInside(s: State, o: Out, x: Context, k: Kind, from: nat, p: nat)
    requires Shaped(s, o) && Within(x, from) && from <= p <= |x.buf|
    requires |x.buf| == (if o.eaten then p + 1 else p) && SpanOf(s) == Some(k)
    ensures var y := Perform(x, o.items, from, p);
            ApplyAll(Extent(x, Some(k), from, p), o.items, p)
              == Extent(y, SpanOf(o.s), if SpanOf(o.s).Some? then from else |y.buf|, |y.buf|)
  {
    hide OnPiece, Apply, SpanOf, IsValueNode, Within;
    var e := Extent(x, Some(k), from, p);
    if o.items == [Data(k)] {
      ApplyOne(e, Data(k), p);
      DataApplied(e, k, p);
      DataJoins(x, k, from, p);
    } else if o.items == [End(k, 0)] {
      ApplyOne(e, End(k, 0), p);
      EndApplied(e, k, p, 0);
      EndJoins(x, k, from, p);
    } else if o.items != [] {
      var rest := o.items[2..];
      assert o.items == [Data(k), End(k, 1)] + rest;
      ConsumedMerges(x, k, rest, from, p);
    }
  }

  // ---- the context stays in order ----

  lemma GrowWithin(x: Context, n: nat, c: byte)
    requires Within(x, n)
    ensures Within(Grow(x, c), n)
  {
  }

  lemma MoreWithin(x: Context, n: nat, m: nat)
    requires Within(x, n) && n <= m <= |x.buf|
    ensures Within(x, m)
  {
  }

  lemma {:induction false} NoticesWithin(x: Context, items: seq<Item>, from: nat, p: nat)
    requires Notices(items) && Within(x, |x.buf|)
    ensures var y := Perform(x, items, from, p); Within(y, |y.buf|) && |y.buf| == |x.buf|
    decreases |items|
  {
    hide Slice;
    if items != [] {
      NoticesWithin(PerformOne(x, items[0], from, p), items[1..], from, p);
    }
  }

  /** The field of the current header stays known while its value is read. */
  lemma ClosedWithin(x: Context, k: Kind, from: nat, p: nat)
    requires Within(x, from) && from <= p <= |x.buf| && (k == Value ==> x.field.Some?)
    ensures Within(Perform(x, [End(k, 0)], from, p), p)
    ensures |Perform(x, [End(k, 0)], from, p).buf| == |x.buf|
    ensures k == Value || k == Field ==> Perform(x, [End(k, 0)], from, p).field.Some?
  {
    hide OnPiece, Within;
    assert Perform(x, [End(k, 0)], from, p) == OnPiece(x, k, from, p - from);
    PieceWithin(x, k, from, p - from);
    if k == Value || k == Field {
      PieceField(x, k, from, p - from);
    }
  }

  lemma PieceField(x: Context, k: Kind, loc: nat, n: nat)
    requires k == Field || (k == Value && x.field.Some?)
    ensures OnPiece(x, k, loc, n).field.Some?
  {
    hide Slice, Moved;
  }

  lemma ConsumedWithin(x: Context, k: Kind, rest: seq<Item>, from: nat, p: nat)
    requires Within(x, from) && from <= p && p + 1 == |x.buf| && (k == Value ==> x.field.Some?)
    requires rest == [] || rest == [Done]
    ensures var y := Perform(x, [Data(k), End(k, 1)] + rest, from, p); Within(y, p + 1) && |y.buf| == |x.buf|
  {
    hide OnPiece, Within;
    PerformThree(x, k, rest, from, p);
    PieceWithin(x, k, from, p + 1 - from);
    NoticesWithin(OnPiece(x, k, from, p + 1 - from), rest, from, p);
  }

  /** A dispatch without an error leaves the lagging pair in order. */
  lemma DispatchCut(s: State, x: Context, from: nat, c: byte)
    requires Cut(s, x, from) && Step(s, c).s.error == 0
    ensures |DispatchContext(s, x, from, c).buf| == |x.buf| + (if Step(s, c).eaten then 1 else 0)
    ensures Cut(Step(s, c).s, DispatchContext(s, x, from, c), DispatchFrom(s, x, from, c))
  {
    StepKeeps(s, c);
    StepDisciplined(s, c);
    GrowWithin(x, from, c);
    GrowWithin(x, |x.buf|, c);
    hide Step, Within, Rank, Inv;
    var o := Step(s, c);
    var y := if o.eaten then Grow(x, c) else x;
    PerformedInOrder(s, o, y, from, |x.buf|);
  }

  /** The callbacks of one dispatch leave everything within the bytes seen. */
  lemma PerformedInOrder(s: State, o: Out, x: Context, from: nat, p: nat)
    requires Shaped(s, o) && FieldFirst(s, o) && Within(x, from) && (IsValueNode(s.node) ==> x.field.Some?)
    requires from <= p <= |x.buf| && |x.buf| == (if o.eaten then p + 1 else p) && (SpanOf(s).None? ==> from == p)
    ensures var y := Perform(x, o.items, from, p);
            && |y.buf| == |x.buf|
            && Within(y, if SpanOf(o.s).Some? then from else |y.buf|)
            && (IsValueNode(o.s.node) ==> y.field.Some?)
  {
    hide Within, SpanOf, OnPiece;
    MoreWithin(x, from, |x.buf|);
    if o.items != [] {
      if SpanOf(s).None? {
        if o.items == [End(Value, 0)] {
          assert o.items[0].End?;
          ClosedWithin(x, Value, from, p);
          MoreWithin(Perform(x, o.items, from, p), p, |x.buf|);
        } else {
          NoticesWithin(x, o.items, from, p);
        }
      } else {
        PerformedInside(s, o, x, SpanOf(s).value, from, p);
      }
    }
  }

  lemma PerformedInside(s: State, o: Out, x: Context, k: Kind, from: nat, p: nat)
    requires Shaped(s, o) && FieldFirst(s, o) && Within(x, from) && (IsValueNode(s.node) ==> x.field.Some?)
    requires from <= p <= |x.buf| && |x.buf| == (if o.eaten then p + 1 else p) && SpanOf(s) == Some(k)
    ensures var y := Perform(x, o.items, from, p);
            && |y.buf| == |x.buf|
            && Within(y, if SpanOf(o.s).Some? then from else |y.buf|)
            && (IsValueNode(o.s.node) ==> y.field.Some?)
  {
    hide Within, SpanOf, OnPiece, IsValueNode;
    MoreWithin(x, from, |x.buf|);
    if o.items == [End(k, 0)] {
      ClosedWithin(x, k, from, p);
      MoreWithin(Perform(x, o.items, from, p), p, |x.buf|);
    } else if SpanOf(o.s).None? {
      var rest := o.items[2..];
      assert o.items == [Data(k), End(k, 1)] + rest;
      ConsumedWithin(x, k, rest, from, p);
    }
  }

  lemma AbsorbStep(v: System, c: byte)
    requires Inv(v.parser) && v.parser.error == 0
    ensures var o, p := Step(v.parser, c), |v.context.buf|;
            && Inv(o.s)
            && (o.eaten || o.s.error != 0 ==> Absorb(v, c) == System(o.s, ApplyAll(Grow(v.context, c), o.items, p)))
            && (!o.eaten && o.s.error == 0 ==> Absorb(v, c) == Absorb(System(o.s, ApplyAll(v.context, o.items, p)), c))
  {
    StepKeeps(v.parser, c);
    hide Step, Apply, Inv;
  }

  lemma ExtentGrows(x: Context, k: Option<Kind>, from: nat, c: byte)
    requires Within(x, from) && from <= |x.buf|
    ensures Grow(Extent(x, k, from, |x.buf|), c) == Extent(Grow(x, c), k, from, |x.buf|)
    ensures |Extent(x, k, from, |x.buf|).buf| == |x.buf|
  {
    hide OnPiece, Within;
    if k.Some? && from < |x.buf| {
      PieceGrows(x, k.value, from, |x.buf| - from, c);
      PieceLength(x, k.value, from, |x.buf| - from);
    }
  }

  /** One dispatch of the lagging pair is one dispatch of the system fed byte by byte. */
  lemma Dispatched(s: State, x: Context, from: nat, c: byte)
    requires Cut(s, x, from)
    ensures var o, v := Step(s, c), Virtual(s, x, from);
            && (o.s.error != 0 ==> Absorb(v, c).parser == o.s)
            && (o.s.error == 0 ==>
                  var w := Virtual(o.s, DispatchContext(s, x, from, c), DispatchFrom(s, x, from, c));
                  Inv(w.parser) && Absorb(v, c) == (if o.eaten then w else Absorb(w, c)))
  {
    AbsorbStep(Virtual(s, x, from), c);
    StepDisciplined(s, c);
    GrowWithin(x, from, c);
    ExtentGrows(x, SpanOf(s), from, c);
    hide Step, Within, Rank, Inv, Absorb, Extent, Perform, Shaped, FieldFirst, IsValueNode, ApplyAll;
    var o := Step(s, c);
    if o.s.error == 0 {
      ItemsMerge(s, o, if o.eaten then Grow(x, c) else x, from, |x.buf|);
    }
  }

  // ---- whole inputs ----

  lemma AbsorbAllStep(v: System, t: bytes)
    requires Inv(v.parser) && t != []
    ensures Inv(Absorb(v, t[0]).parser) && AbsorbAll(v, t) == AbsorbAll(Absorb(v, t[0]), t[1..])
  {
    hide Absorb, Inv;
  }

  /** An error is final. */
  lemma {:induction false} ErrorStays(v: System, t: bytes)
    requires Inv(v.parser) && v.parser.error != 0
    ensures AbsorbAll(v, t).parser == v.parser
    decreases |t|
  {
    if t != [] {
      ErrorStays(Absorb(v, t[0]), t[1..]);
    }
    hide Apply, Step;
  }

  /** One dispatch of the lagging pair, seen from the whole input. */
  lemma FeedOne(s: State, x: Context, from: nat, t: bytes)
    requires Cut(s, x, from) && t != []
    ensures Inv(s) && s.error == 0 && Virtual(s, x, from).parser == s
    ensures var o, v := Step(s, t[0]), Virtual(s, x, from);
            && (o.s.error != 0 ==> AbsorbAll(v, t).parser == o.s)
            && (o.s.error == 0 ==>
                  var y, f := DispatchContext(s, x, from, t[0]), DispatchFrom(s, x, from, t[0]);
                  Cut(o.s, y, f) && Virtual(o.s, y, f).parser == o.s && Inv(o.s)
                  && AbsorbAll(v, t) == AbsorbAll(Virtual(o.s, y, f), if o.eaten then t[1..] else t))
  {
    hide Step, Within, Absorb, AbsorbAll, Extent, SpanOf, Perform, Rank, IsValueNode, Sequence, DispatchContext,
             DispatchFrom;
    var o, v := Step(s, t[0]), Virtual(s, x, from);
    StepKeeps(s, t[0]);
    AbsorbAllStep(v, t);
    Dispatched(s, x, from, t[0]);
    if o.s.error != 0 {
      ErrorStays(Absorb(v, t[0]), t[1..]);
    } else {
      DispatchCut(s, x, from, t[0]);
      var y, f := DispatchContext(s, x, from, t[0]), DispatchFrom(s, x, from, t[0]);
      AbsorbAllStep(Virtual(o.s, y, f), t);
    }
  }

  // ---- the order of the callbacks ----

  function SkipData(items: seq<Item>): seq<Item> {
    if items != [] && items[0].Data? then items[1..] else items
  }

  function SkipEnd(items: seq<Item>): seq<Item> {
    if items != [] && items[0].End? then items[1..] else items
  }

  /** At most one span is closed, and it is closed first. */
  predicate Orderly(items: seq<Item>, from: nat, p: nat, n: nat, fieldKnown: bool) {
    var r := SkipData(items);
    && Notices(SkipEnd(r))
    && (r != [] && r[0].End? ==> p + r[0].after <= n && (r[0].kind == Value ==> fieldKnown))
    && from <= p <= n
  }

  lemma StepOrderly(s: State, x: Context, from: nat, c: byte, n: nat)
    requires Cut(s, x, from)
    requires var o := Step(s, c); n == if o.eaten || o.s.error != 0 then |x.buf| + 1 else |x.buf|
    ensures Orderly(Step(s, c).items, from, |x.buf|, n, x.field.Some?)
    ensures Step(s, c).s.error == 0 && SpanOf(Step(s, c).s).Some? ==>
              SpanOf(s) == SpanOf(Step(s, c).s) || SpanOf(s).None?
    ensures Step(s, c).s.error == 0 && SpanOf(s).Some? && SpanOf(Step(s, c).s).Some? ==> !SkipEnds(Step(s, c).items)
    ensures Step(s, c).s.error == 0 && SpanOf(s).Some? && SpanOf(Step(s, c).s).None? ==> SkipEnds(Step(s, c).items)
  {
    StepDisciplined(s, c);
    hide Step, Within, Inv, IsValueNode;
    var items := Step(s, c).items;
    if |items| >= 2 && items[0].Data? {
      assert items[1..][0] == items[1];
      assert items[1..][1..] == items[2..];
    }
  }

  predicate SkipEnds(items: seq<Item>) {
    var r := SkipData(items); r != [] && r[0].End?
  }

  // ---- the end of a call ----

  /** Delivering the open span at the end of the input puts everything in order for the next call. */
  lemma FlushCut(s: State, x: Context, from: nat, k: Kind)
    requires Cut(s, x, from) && SpanOf(s) == Some(k) && from <= |x.buf|
    requires from == |x.buf| ==> Begun(x, k)
    ensures k == Value ==> x.field.Some?
    ensures Within(x, from)
    ensures var y := OnPiece(x, k, from, |x.buf| - from);
            && |y.buf| == |x.buf| && Cut(s, y, |y.buf|) && Begun(y, k)
            && y == Extent(x, Some(k), from, |x.buf|)
  {
    var n := |x.buf| - from;
    PieceWithin(x, k, from, n);
    PieceBegun(x, k, from, n);
    ValueSpan(s, k);
    if k == Value {
      PieceField(x, k, from, n);
    }
    if n == 0 {
      EmptyPiece(x, k, from);
    }
    hide OnPiece, SpanOf, Within, Begun, Inv, IsValueNode;
  }

  lemma ValueSpan(s: State, k: Kind)
    requires SpanOf(s) == Some(k)
    ensures k == Value <==> IsValueNode(s.node)
  {
  }
}
