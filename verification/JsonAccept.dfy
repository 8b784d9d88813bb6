/** The validator accepts every document of the grammar that is nested at most
    MAX_DEPTH deep, and reports deeper ones. */
module JsonAccept {
  import opened Bytes
  import opened JsonScan
  import opened JsonText
  import opened JsonGrammar

  lemma {:induction false} SpaceSkipped(b: bytes, i: nat, w: bytes)
    requires AllSpace(w) && At(b, i, w) && (i + |w| < |b| ==> !IsSpace(b[i + |w|]))
    ensures SpaceEnd(b, i) == i + |w|
    decreases |w|
  {
    if w != [] {
      AtByte(b, i, w, 0);
      assert b[i + 1..i + |w|] == b[i..i + |w|][1..] == w[1..];
      SpaceSkipped(b, i + 1, w[1..]);
    }
  }

  /** A white-space text is skipped up to a byte that is no white space. */
  lemma CommaSkipped(b: bytes, i: nat, w1: bytes, w2: bytes)
    requires AllSpace(w1) && AllSpace(w2) && At(b, i, w1 + ([COMMA] + w2))
    requires var k := i + |w1| + 1 + |w2|; k < |b| && !IsSpace(b[k]) && !IsClose(b[k])
    ensures CommaEnd(b, i) == (true, i + |w1| + 1 + |w2|)
  {
    AtConcat(b, i, w1, [COMMA] + w2);
    AtConcat(b, i + |w1|, [COMMA], w2);
    AtOne(b, i + |w1|, COMMA);
    SpaceSkipped(b, i, w1);
    SpaceSkipped(b, i + |w1| + 1, w2);
  }

  lemma NoCommaSkipped(b: bytes, i: nat, w: bytes)
    requires AllSpace(w) && At(b, i, w)
    requires var k := i + |w|; k < |b| ==> !IsSpace(b[k]) && b[k] != COMMA
    ensures CommaEnd(b, i) == (false, i + |w|)
  {
    SpaceSkipped(b, i, w);
  }

  /** What may come after a segment: a bracket, and an open one if the segment needs it. */
  predicate Follows(b: bytes, i: nat, needsNest: bool) {
    i < |b| && (IsOpen(b[i]) || (!needsNest && IsClose(b[i])))
  }

  lemma NotAScalar(b: bytes, i: nat)
    requires i < |b| ==> !ScalarStart(b[i])
    ensures ScalarEnd(b, i) == None && StringEnd(b, i) == None
  {
    if ScalarEnd(b, i).Some? { ScalarFound(b, i); }
  }

  /** A white-space text then a byte that is no white space is delimited. */
  lemma DelimitedBySpace(b: bytes, i: nat, w: bytes)
    requires AllSpace(w) && At(b, i, w) && Delimited(b, i + |w|)
    ensures Delimited(b, i)
  {
    if w != [] { AtByte(b, i, w, 0); }
  }

  lemma AtStart(b: bytes, i: nat, t: bytes)
    requires At(b, i, t) && |t| > 0
    ensures i < |b|
  {
  }

  lemma ArrayStep(b: bytes, i: nat, j: nat)
    requires ScalarEnd(b, i) == Some(j)
    ensures ArrayScalarsEnd(b, i) == (var (comma, k) := CommaEnd(b, j); if comma then ArrayScalarsEnd(b, k) else k)
  {
    hide ScalarEnd, CommaEnd;
  }

  lemma ElementSkipped(b: bytes, i: nat, v: bytes)
    requires IsScalarText(v, false) && At(b, i, v) && Delimited(b, i + |v|)
    ensures ScalarEnd(b, i) == Some(i + |v|) && i < |b| && ScalarStart(b[i])
    ensures ArrayScalarsEnd(b, i) ==
            (var (comma, k) := CommaEnd(b, i + |v|); if comma then ArrayScalarsEnd(b, k) else k)
  {
    hide *;
    ScalarSkipped(b, i, v, false);
    AtStart(b, i, v);
    ArrayStep(b, i, i + |v|);
  }

  lemma KeyPieces(b: bytes, i: nat, key: bytes, w1: bytes, w2: bytes) returns (j: nat, s: nat)
    requires At(b, i, key + (w1 + ([COLON] + w2)))
    ensures j == i + |key| && At(b, i, key)
    ensures s == j + |w1| && At(b, j, w1)
    ensures s < |b| && b[s] == COLON && At(b, s + 1, w2)
  {
    hide At;
    j := i + |key|;
    s := j + |w1|;
    AtConcat(b, i, key, w1 + ([COLON] + w2));
    AtConcat(b, j, w1, [COLON] + w2);
    AtConcat(b, s, [COLON], w2);
    AtOne(b, s, COLON);
  }

  /** A key, a colon and white space are passed up to the value. */
  lemma ColonIsNoSpace(b: bytes, s: nat)
    requires s < |b| && b[s] == COLON
    ensures !IsSpace(b[s])
  {
  }

  lemma MemberStep(b: bytes, i: nat, j: nat, s: nat)
    requires StringEnd(b, i) == Some(j) && SpaceEnd(b, j) == s && s < |b| && b[s] == COLON
    ensures MemberValue(b, i) == Some(SpaceEnd(b, s + 1))
  {
    hide StringEnd;
  }

  lemma KeySkipped(b: bytes, i: nat, key: bytes, w1: bytes, w2: bytes)
    requires IsStringText(key, false) && AllSpace(w1) && AllSpace(w2)
    requires At(b, i, key + (w1 + ([COLON] + w2)))
    requires var v := i + |key| + |w1| + 1 + |w2|; v < |b| ==> !IsSpace(b[v])
    ensures i < |b| && b[i] == QUOTE && MemberValue(b, i) == Some(i + |key| + |w1| + 1 + |w2|)
  {
    hide *;
    var j, s := KeyPieces(b, i, key, w1, w2);
    StringSkipped(b, i, key, false);
    AtStart(b, i, key);
    ColonIsNoSpace(b, s);
    SpaceSkipped(b, j, w1);
    SpaceSkipped(b, s + 1, w2);
    MemberStep(b, i, j, s);
  }

  lemma MemberParts(it: Item)
    requires it.Member? && ItemOk(LBRACE, it)
    ensures IsStringText(it.key, false) && AllSpace(it.w1) && AllSpace(it.w2) && IsScalarText(it.v, false)
    ensures ItemText(it) == it.key + (it.w1 + ([COLON] + it.w2)) + it.v
  {
    hide IsStringText, IsScalarText;
  }

  lemma StartIsNoSpace(c: byte)
    requires ScalarStart(c)
    ensures !IsSpace(c) && !IsOpen(c)
  {
  }

  lemma QuoteStarts(c: byte)
    requires c == QUOTE
    ensures ScalarStart(c)
  {
  }

  lemma ObjectStep(b: bytes, i: nat, v: nat, u: nat)
    requires MemberValue(b, i) == Some(v) && v < |b| && !IsOpen(b[v]) && ScalarEnd(b, v) == Some(u)
    ensures ObjectScalarsEnd(b, i) == (var (comma, k) := CommaEnd(b, u); if comma then ObjectScalarsEnd(b, k) else k)
  {
    hide MemberValue, ScalarEnd, CommaEnd;
  }

  lemma MemberSkipped(b: bytes, i: nat, it: Item)
    requires it.Member? && ItemOk(LBRACE, it) && At(b, i, ItemText(it)) && Delimited(b, i + |ItemText(it)|)
    ensures i < |b| && ScalarStart(b[i])
    ensures ObjectScalarsEnd(b, i) ==
            (var (comma, k) := CommaEnd(b, i + |ItemText(it)|); if comma then ObjectScalarsEnd(b, k) else k)
  {
    hide *;
    MemberParts(it);
    var head := it.key + (it.w1 + ([COLON] + it.w2));
    var v := i + |head|;
    AtConcat(b, i, head, it.v);
    ScalarSkipped(b, v, it.v, false);
    AtStart(b, v, it.v);
    StartIsNoSpace(b[v]);
    KeySkipped(b, i, it.key, it.w1, it.w2);
    QuoteStarts(b[i]);
    ObjectStep(b, i, v, v + |it.v|);
  }

  function ModeEnd(b: bytes, i: nat, open: byte): nat {
    if open == LSQUARE then ArrayScalarsEnd(b, i) else ObjectScalarsEnd(b, i)
  }

  lemma ItemSkipped(b: bytes, i: nat, open: byte, it: Item)
    requires IsOpen(open) && ItemOk(open, it) && At(b, i, ItemText(it)) && Delimited(b, i + |ItemText(it)|)
    ensures i < |b| && ScalarStart(b[i])
    ensures ModeEnd(b, i, open) ==
            (var (comma, k) := CommaEnd(b, i + |ItemText(it)|); if comma then ModeEnd(b, k, open) else k)
  {
    if it.Element? {
      ElementSkipped(b, i, it.v);
    } else {
      MemberSkipped(b, i, it);
    }
  }

  lemma EmptySkipped(b: bytes, i: nat, open: byte)
    requires i < |b| && (IsOpen(b[i]) || IsClose(b[i]))
    ensures ModeEnd(b, i, open) == i
  {
    NotAScalar(b, i);
  }

  lemma BareKeySkipped(b: bytes, i: nat, open: byte, key: bytes, w1: bytes, w2: bytes)
    requires open == LBRACE && IsStringText(key, false) && AllSpace(w1) && AllSpace(w2)
    requires At(b, i, key + (w1 + ([COLON] + w2)))
    requires var v := i + |key| + |w1| + 1 + |w2|; v < |b| && IsOpen(b[v])
    ensures i < |b| && ScalarStart(b[i]) && ModeEnd(b, i, open) == i + |key| + |w1| + 1 + |w2|
  {
    hide MemberValue;
    KeySkipped(b, i, key, w1, w2);
  }

  lemma LastSkipped(b: bytes, i: nat, open: byte, it: Item, w: bytes)
    requires IsOpen(open) && ItemOk(open, it) && AllSpace(w) && At(b, i, ItemText(it) + w)
    requires var k := i + |ItemText(it)| + |w|; k == |b| || Follows(b, k, false)
    ensures ModeEnd(b, i, open) == i + |ItemText(it)| + |w|
    ensures i < |b| && ScalarStart(b[i])
  {
    AtConcat(b, i, ItemText(it), w);
    var j := i + |ItemText(it)|;
    hide ModeEnd, ItemText, ItemOk, At, CommaEnd;
    DelimitedBySpace(b, j, w);
    ItemSkipped(b, i, open, it);
    NoCommaSkipped(b, j, w);
  }

  lemma MorePieces(b: bytes, i: nat, x: bytes, w1: bytes, w2: bytes, r: bytes) returns (j: nat, k: nat)
    requires At(b, i, x + (w1 + ([COMMA] + (w2 + r))))
    ensures j == i + |x| && At(b, i, x)
    ensures k == j + |w1| + 1 + |w2| && At(b, j, w1 + ([COMMA] + w2)) && At(b, j, w1) && At(b, k, r)
    ensures j + |w1| < |b| && b[j + |w1|] == COMMA
  {
    var comma := w1 + ([COMMA] + w2);
    assert w1 + ([COMMA] + (w2 + r)) == comma + r;
    hide At;
    j := i + |x|;
    k := j + |comma|;
    AtConcat(b, i, x, comma + r);
    AtConcat(b, j, comma, r);
    AtConcat(b, j, w1, [COMMA] + w2);
    AtConcat(b, j + |w1|, [COMMA], w2);
    AtOne(b, j + |w1|, COMMA);
  }

  lemma MoreSkipped(b: bytes, i: nat, open: byte, it: Item, w1: bytes, w2: bytes, j: nat, k: nat)
    requires IsOpen(open) && ItemOk(open, it) && AllSpace(w1) && AllSpace(w2)
    requires At(b, i, ItemText(it)) && j == i + |ItemText(it)|
    requires At(b, j, w1 + ([COMMA] + w2)) && At(b, j, w1) && k == j + |w1| + 1 + |w2|
    requires j + |w1| < |b| && b[j + |w1|] == COMMA
    requires k < |b| && (IsOpen(b[k]) || ScalarStart(b[k]))
    ensures ModeEnd(b, i, open) == ModeEnd(b, k, open)
    ensures i < |b| && ScalarStart(b[i])
  {
    hide ModeEnd, ItemText, ItemOk, CommaEnd, At, AllSpace;
    CommaSkipped(b, j, w1, w2);
    DelimitedBySpace(b, j, w1);
    ItemSkipped(b, i, open, it);
  }

  /** The scalar loops pass over a segment and stop at its end. */
  lemma {:induction false} SegmentSkipped(b: bytes, i: nat, open: byte, seg: Segment)
    requires IsOpen(open) && SegmentOk(open, seg) && At(b, i, SegmentText(seg))
    requires Follows(b, i + |SegmentText(seg)|, NeedsNest(seg))
    ensures ModeEnd(b, i, open) == i + |SegmentText(seg)|
    ensures i < |b| && (if seg == Empty then IsOpen(b[i]) || IsClose(b[i]) else ScalarStart(b[i]))
    decreases seg, 0
  {
    hide ModeEnd, ItemText, ItemOk, At, ScalarStart;
    match seg
    case Empty => EmptySkipped(b, i, open);
    case Last(it, w) => LastSkipped(b, i, open, it, w);
    case More(it, w1, w2, rest) =>
      var j, k := MorePieces(b, i, ItemText(it), w1, w2, SegmentText(rest));
      SegmentSkipped(b, k, open, rest);
      MoreSkipped(b, i, open, it, w1, w2, j, k);
    case BareKey(key, w1, w2) => BareKeySkipped(b, i, open, key, w1, w2);
  }

  // ---- collections ----

  lemma CollTextIs(c: Coll)
    ensures CollText(c) == [c.open] + (c.w + (SegmentText(c.seg) + TailText(c.open, c.tail)))
  {
    hide SegmentText, TailText;
  }

  lemma CollPieces(b: bytes, i: nat, c: Coll) returns (j: nat, k: nat)
    requires At(b, i, CollText(c))
    ensures i < |b| && b[i] == c.open && At(b, i + 1, c.w) && j == i + 1 + |c.w|
    ensures At(b, j, SegmentText(c.seg)) && k == j + |SegmentText(c.seg)|
    ensures At(b, k, TailText(c.open, c.tail)) && k + |TailText(c.open, c.tail)| == i + |CollText(c)|
  {
    hide *;
    var g, t := SegmentText(c.seg), TailText(c.open, c.tail);
    CollTextIs(c);
    j := i + 1 + |c.w|;
    k := j + |g|;
    var gt := g + t;
    var rest := c.w + gt;
    AtConcat(b, i, [c.open], rest);
    AtOne(b, i, c.open);
    AtConcat(b, i + 1, c.w, gt);
    AtConcat(b, j, g, t);
  }

  lemma NestText(open: byte, t: Tail)
    requires t.Nest?
    ensures TailText(open, t) == CollText(t.inner) + (t.w + (AfterText(t.after) + TailText(open, t.tail)))
  {
    hide CollText, AfterText;
  }

  lemma NestPieces(b: bytes, i: nat, open: byte, t: Tail) returns (j: nat, k: nat, m: nat)
    requires t.Nest? && At(b, i, TailText(open, t))
    ensures At(b, i, CollText(t.inner)) && j == i + |CollText(t.inner)|
    ensures At(b, j, t.w) && k == j + |t.w|
    ensures At(b, k, AfterText(t.after)) && m == k + |AfterText(t.after)|
    ensures At(b, m, TailText(open, t.tail)) && m + |TailText(open, t.tail)| == i + |TailText(open, t)|
  {
    hide *;
    NestText(open, t);
    var c, a, r := CollText(t.inner), AfterText(t.after), TailText(open, t.tail);
    var ar := a + r;
    var war := t.w + ar;
    j := i + |c|;
    k := j + |t.w|;
    m := k + |a|;
    AtConcat(b, i, c, war);
    AtConcat(b, j, t.w, ar);
    AtConcat(b, k, a, r);
  }

  lemma TailStart(b: bytes, i: nat, open: byte, t: Tail)
    requires IsOpen(open) && TailOk(open, t) && At(b, i, TailText(open, t))
    ensures i < |b| && (if t.Nest? then IsOpen(b[i]) else b[i] == CloseOf(open))
  {
    if t.Nest? {
      var j, k, m := NestPieces(b, i, open, t);
      var j', k' := CollPieces(b, i, t.inner);
    } else {
      AtOne(b, i, CloseOf(open));
    }
  }

  lemma CollParts(c: Coll)
    requires CollOk(c)
    ensures IsOpen(c.open) && AllSpace(c.w) && SegmentOk(c.open, c.seg) && TailOk(c.open, c.tail)
    ensures NeedsNest(c.seg) ==> c.tail.Nest?
    ensures Depth(c) == 1 + TailDepth(c.tail)
  {
  }

  lemma NestParts(open: byte, t: Tail)
    requires TailOk(open, t) && t.Nest?
    ensures CollOk(t.inner) && AllSpace(t.w) && AfterOk(open, t.after, t.tail) && TailOk(open, t.tail)
    ensures TailDepth(t) == (if Depth(t.inner) > TailDepth(t.tail) then Depth(t.inner) else TailDepth(t.tail))
  {
  }

  /** What the first byte of a tail allows after a segment. */
  lemma TailFollows(b: bytes, i: nat, open: byte, t: Tail)
    requires IsOpen(open) && TailOk(open, t) && At(b, i, TailText(open, t))
    ensures Follows(b, i, t.Nest?) && !IsSpace(b[i]) && b[i] != COMMA
  {
    TailStart(b, i, open, t);
  }

  lemma WeakerFollows(b: bytes, i: nat, strong: bool, weak: bool)
    requires Follows(b, i, strong) && (weak ==> strong)
    ensures Follows(b, i, weak)
  {
  }

  lemma SegmentStart(b: bytes, i: nat, seg: Segment)
    requires i < |b| && (if seg == Empty then IsOpen(b[i]) || IsClose(b[i]) else ScalarStart(b[i]))
    ensures !IsSpace(b[i]) && (seg != Empty || IsOpen(b[i]) ==> !IsClose(b[i]))
  {
  }

  lemma NoSpace(b: bytes, i: nat)
    requires i < |b| && !IsSpace(b[i])
    ensures SpaceEnd(b, i) == i
  {
  }

  lemma ScalarsAfterSpace(b: bytes, i: nat, j: nat, open: byte)
    requires SpaceEnd(b, i) == j
    ensures ScalarsEnd(b, i, open) == ModeEnd(b, j, open)
  {
  }

  /** The open bracket, white space and the first segment are passed up to the tail. */
  lemma HeadSkipped(b: bytes, i: nat, c: Coll) returns (k: nat)
    requires CollOk(c) && At(b, i, CollText(c))
    ensures i < |b| && b[i] == c.open && ScalarsEnd(b, i + 1, c.open) == k
    ensures At(b, k, TailText(c.open, c.tail)) && k + |TailText(c.open, c.tail)| == i + |CollText(c)|
  {
    hide *;
    CollParts(c);
    var j;
    j, k := CollPieces(b, i, c);
    TailFollows(b, k, c.open, c.tail);
    WeakerFollows(b, k, c.tail.Nest?, NeedsNest(c.seg));
    SegmentSkipped(b, j, c.open, c.seg);
    SegmentStart(b, j, c.seg);
    SpaceSkipped(b, i + 1, c.w);
    ScalarsAfterSpace(b, i + 1, j, c.open);
  }

  lemma CommaSegmentPieces(b: bytes, i: nat, w: bytes, a: After) returns (m: nat)
    requires a.Comma? && At(b, i, w) && At(b, i + |w|, AfterText(a))
    ensures m == i + |w| + 1 + |a.w| && At(b, i, w + ([COMMA] + a.w)) && At(b, m, SegmentText(a.seg))
    ensures m + |SegmentText(a.seg)| == i + |w| + |AfterText(a)|
  {
    hide *;
    CommaTextIs(a);
    var g := SegmentText(a.seg);
    var k, wg := i + |w|, a.w + g;
    m := k + 1 + |a.w|;
    AtConcat(b, k, [COMMA], wg);
    AtConcat(b, k + 1, a.w, g);
    AtConcat(b, k, [COMMA], a.w);
    AtConcat(b, i, w, [COMMA] + a.w);
  }

  lemma CommaTextIs(a: After)
    requires a.Comma?
    ensures AfterText(a) == [COMMA] + (a.w + SegmentText(a.seg))
  {
    hide SegmentText;
  }

  lemma CommaParts(open: byte, a: After, t: Tail)
    requires AfterOk(open, a, t) && a.Comma?
    ensures AllSpace(a.w) && SegmentOk(open, a.seg)
    ensures NeedsNest(a.seg) ==> t.Nest?
    ensures a.seg == Empty ==> t.Nest?
  {
  }

  lemma ResumeComma(b: bytes, i: nat, stack: bytes, m: nat)
    requires |stack| > 0 && CommaEnd(b, i) == (true, m)
    ensures ResumeEnd(b, i, stack) == ScalarsEnd(b, m, Top(stack))
  {
  }

  lemma ResumeNoComma(b: bytes, i: nat, stack: bytes, m: nat)
    requires |stack| > 0 && CommaEnd(b, i) == (false, m)
    ensures ResumeEnd(b, i, stack) == m
  {
  }

  lemma FollowsNest(b: bytes, i: nat)
    requires Follows(b, i, true)
    ensures i < |b| && IsOpen(b[i])
  {
  }

  lemma ResumedComma(b: bytes, i: nat, stack: bytes, w: bytes, a: After, t: Tail)
    requires |stack| > 0 && IsOpen(Top(stack)) && a.Comma?
    requires AllSpace(w) && AfterOk(Top(stack), a, t)
    requires At(b, i, w) && At(b, i + |w|, AfterText(a))
    requires Follows(b, i + |w| + |AfterText(a)|, t.Nest?)
    ensures ResumeEnd(b, i, stack) == i + |w| + |AfterText(a)|
  {
    hide *;
    var open, z := Top(stack), i + |w| + |AfterText(a)|;
    CommaParts(open, a, t);
    var m := CommaSegmentPieces(b, i, w, a);
    WeakerFollows(b, z, t.Nest?, NeedsNest(a.seg));
    SegmentSkipped(b, m, open, a.seg);
    if a.seg == Empty { EmptyText(); FollowsNest(b, z); }
    SegmentStart(b, m, a.seg);
    CommaSkipped(b, i, w, a.w);
    NoSpace(b, m);
    ScalarsAfterSpace(b, m, m, open);
    ResumeComma(b, i, stack, m);
  }

  lemma EmptyText()
    ensures SegmentText(Empty) == []
  {
  }

  /** After a nested collection the scan resumes at the rest of the tail. */
  lemma Resumed(b: bytes, i: nat, stack: bytes, w: bytes, a: After, t: Tail)
    requires |stack| > 0 && IsOpen(Top(stack))
    requires AllSpace(w) && AfterOk(Top(stack), a, t) && TailOk(Top(stack), t)
    requires At(b, i, w) && At(b, i + |w|, AfterText(a)) && At(b, i + |w| + |AfterText(a)|, TailText(Top(stack), t))
    ensures ResumeEnd(b, i, stack) == i + |w| + |AfterText(a)|
  {
    hide *;
    TailFollows(b, i + |w| + |AfterText(a)|, Top(stack), t);
    if a.NoComma? {
      NoAfter(a);
      NoCommaSkipped(b, i, w);
      ResumeNoComma(b, i, stack, i + |w|);
    } else {
      ResumedComma(b, i, stack, w, a, t);
    }
  }

  lemma NoAfter(a: After)
    requires a.NoComma?
    ensures AfterText(a) == []
  {
  }

  lemma BracketsOpen(b: bytes, i: nat, stack: bytes)
    requires i < |b| && IsOpen(b[i])
    ensures |stack| < MAX_DEPTH ==>
              Brackets(b, i, stack) == Brackets(b, ScalarsEnd(b, i + 1, b[i]), stack + [b[i]])
    ensures |stack| == MAX_DEPTH ==> Brackets(b, i, stack).0 == JSONMaxDepthExceeded
  {
  }

  lemma BracketsClose(b: bytes, i: nat, stack: bytes, open: byte)
    requires IsOpen(open) && i < |b| && b[i] == CloseOf(open)
    ensures Brackets(b, i, stack + [open]) == AfterClose(b, i + 1, stack)
  {
    var inside := stack + [open];
    assert Top(inside) == open && inside[..|inside| - 1] == stack;
  }

  lemma AfterCloseOpen(b: bytes, i: nat, stack: bytes, open: byte)
    requires i <= |b|
    ensures Top(stack + [open]) == open
    ensures AfterClose(b, i, stack + [open]) == Brackets(b, ResumeEnd(b, i, stack + [open]), stack + [open])
  {
  }

  lemma CloseEnd(b: bytes, i: nat, open: byte)
    requires At(b, i, TailText(open, Close))
    ensures i < |b| && b[i] == CloseOf(open) && |TailText(open, Close)| == 1 && i + 1 <= |b|
  {
    AtOne(b, i, CloseOf(open));
  }

  lemma AtBound(b: bytes, i: nat, t: bytes)
    requires At(b, i, t)
    ensures i + |t| <= |b|
  {
  }

  /** Passing over a nested collection and resuming after it. */
  lemma NestSkipped(b: bytes, i: nat, stack: bytes, open: byte, t: Tail) returns (m: nat)
    requires t.Nest? && IsOpen(open) && TailOk(open, t) && At(b, i, TailText(open, t))
    requires |stack| + 1 + Depth(t.inner) <= MAX_DEPTH
    ensures Brackets(b, i, stack + [open]) == Brackets(b, m, stack + [open])
    ensures At(b, m, TailText(open, t.tail)) && m + |TailText(open, t.tail)| == i + |TailText(open, t)|
    decreases t, 0
  {
    hide *;
    var j, k;
    j, k, m := NestPieces(b, i, open, t);
    NestParts(open, t);
    AtBound(b, i, CollText(t.inner));
    AfterCloseOpen(b, j, stack, open);
    CollRuns(b, i, stack + [open], t.inner);
    Resumed(b, j, stack + [open], t.w, t.after, t.tail);
  }

  /** The bracket loop passes over a tail of the grammar and closes its collection. */
  lemma {:induction false} TailRuns(b: bytes, i: nat, stack: bytes, open: byte, t: Tail)
    requires IsOpen(open) && TailOk(open, t) && At(b, i, TailText(open, t))
    requires |stack| + 1 + TailDepth(t) <= MAX_DEPTH
    ensures i + |TailText(open, t)| <= |b|
    ensures Brackets(b, i, stack + [open]) == AfterClose(b, i + |TailText(open, t)|, stack)
    decreases t, 1
  {
    hide *;
    AtBound(b, i, TailText(open, t));
    if t.Nest? {
      NestParts(open, t);
      var m := NestSkipped(b, i, stack, open, t);
      TailRuns(b, m, stack, open, t.tail);
    } else {
      CloseEnd(b, i, open);
      BracketsClose(b, i, stack, open);
    }
  }

  /** The bracket loop passes over a whole collection of the grammar. */
  lemma {:induction false} CollRuns(b: bytes, i: nat, stack: bytes, c: Coll)
    requires CollOk(c) && At(b, i, CollText(c)) && |stack| + Depth(c) <= MAX_DEPTH
    ensures i + |CollText(c)| <= |b|
    ensures Brackets(b, i, stack) == AfterClose(b, i + |CollText(c)|, stack)
    decreases c, 0
  {
    hide *;
    CollParts(c);
    AtBound(b, i, CollText(c));
    var k := HeadSkipped(b, i, c);
    BracketsOpen(b, i, stack);
    TailRuns(b, k, stack, c.open, c.tail);
  }

  /** Nesting beyond MAX_DEPTH is reported, wherever in the collection it occurs. */
  lemma {:induction false} TailTooDeep(b: bytes, i: nat, stack: bytes, open: byte, t: Tail)
    requires IsOpen(open) && TailOk(open, t) && At(b, i, TailText(open, t))
    requires |stack| < MAX_DEPTH < |stack| + 1 + TailDepth(t)
    ensures Brackets(b, i, stack + [open]).0 == JSONMaxDepthExceeded
    decreases t
  {
    hide *;
    if t.Close? { CloseDepth(); }
    NestParts(open, t);
    if |stack| + 1 + Depth(t.inner) > MAX_DEPTH {
      var j, k, m := NestPieces(b, i, open, t);
      CollTooDeep(b, i, stack + [open], t.inner);
    } else {
      var m := NestSkipped(b, i, stack, open, t);
      TailTooDeep(b, m, stack, open, t.tail);
    }
  }

  lemma CloseDepth()
    ensures TailDepth(Close) == 0
  {
  }

  lemma {:induction false} CollTooDeep(b: bytes, i: nat, stack: bytes, c: Coll)
    requires CollOk(c) && At(b, i, CollText(c)) && |stack| <= MAX_DEPTH < |stack| + Depth(c)
    ensures Brackets(b, i, stack).0 == JSONMaxDepthExceeded
    decreases c
  {
    hide *;
    CollParts(c);
    var k := HeadSkipped(b, i, c);
    BracketsOpen(b, i, stack);
    if |stack| < MAX_DEPTH {
      TailTooDeep(b, k, stack, c.open, c.tail);
    }
  }

  // ---- documents ----

  lemma DocumentPieces(d: Document) returns (i: nat, j: nat)
    ensures At(DocumentText(d), 0, d.before) && i == |d.before|
    ensures At(DocumentText(d), i, RootText(d.root)) && j == i + |RootText(d.root)|
    ensures At(DocumentText(d), j, d.after) && j + |d.after| == |DocumentText(d)|
  {
    var b := DocumentText(d);
    hide RootText;
    var rest := RootText(d.root) + d.after;
    i := |d.before|;
    j := i + |RootText(d.root)|;
    assert b[0..|b|] == b;
    AtConcat(b, 0, d.before, rest);
    AtConcat(b, i, RootText(d.root), d.after);
    hide DocumentText;
  }

  lemma EndDelimited(b: bytes, i: nat)
    requires i == |b|
    ensures Delimited(b, i)
  {
  }

  lemma ScalarStatus(b: bytes, i: nat, j: nat)
    requires SpaceEnd(b, 0) == i && ScalarEnd(b, i) == Some(j) && SpaceEnd(b, j) == |b| && i < |b|
    ensures ValidateStatus(b) == JSONSuccess
  {
    hide SpaceEnd, ScalarEnd, Brackets;
  }

  lemma ScalarAccepted(b: bytes, i: nat, j: nat, before: bytes, v: bytes, after: bytes)
    requires AllSpace(before) && AllSpace(after) && IsScalarText(v, false)
    requires At(b, 0, before) && i == |before| && At(b, i, v) && j == i + |v| && At(b, j, after) && j + |after| == |b|
    ensures ValidateStatus(b) == JSONSuccess
  {
    hide *;
    SpaceSkipped(b, j, after);
    EndDelimited(b, j + |after|);
    DelimitedBySpace(b, j, after);
    ScalarSkipped(b, i, v, false);
    AtStart(b, i, v);
    StartIsNoSpace(b[i]);
    SpaceSkipped(b, 0, before);
    ScalarStatus(b, i, j);
  }

  lemma CollectionStatus(b: bytes, i: nat, j: nat)
    requires SpaceEnd(b, 0) == i && i < |b| && IsOpen(b[i]) && ScalarEnd(b, i) == None && j <= |b|
    ensures Brackets(b, i, []) == AfterClose(b, j, []) && SpaceEnd(b, j) == |b| ==> ValidateStatus(b) == JSONSuccess
    ensures Brackets(b, i, []).0 == JSONMaxDepthExceeded ==> ValidateStatus(b) == JSONMaxDepthExceeded
  {
    hide ScalarEnd, Brackets;
  }

  lemma DepthLimit()
    ensures 0 < MAX_DEPTH
  {
  }

  lemma OpenFacts(b: bytes, i: nat)
    requires i < |b| && IsOpen(b[i])
    ensures !IsSpace(b[i]) && !ScalarStart(b[i])
  {
  }

  lemma CollectionAccepted(b: bytes, i: nat, j: nat, before: bytes, c: Coll, after: bytes)
    requires AllSpace(before) && AllSpace(after) && CollOk(c)
    requires At(b, 0, before) && i == |before| && At(b, i, CollText(c)) && j == i + |CollText(c)|
    requires At(b, j, after) && j + |after| == |b|
    ensures ValidateStatus(b) == if Depth(c) <= MAX_DEPTH then JSONSuccess else JSONMaxDepthExceeded
  {
    hide *;
    SpaceSkipped(b, j, after);
    CollParts(c);
    var k := HeadSkipped(b, i, c);
    OpenFacts(b, i);
    SpaceSkipped(b, 0, before);
    NotAScalar(b, i);
    DepthLimit();
    if Depth(c) <= MAX_DEPTH {
      CollRuns(b, i, [], c);
    } else {
      CollTooDeep(b, i, [], c);
    }
    CollectionStatus(b, i, j);
  }

  lemma DocumentParts(d: Document)
    requires DocumentOk(d)
    ensures AllSpace(d.before) && AllSpace(d.after)
    ensures d.root.Scalar? ==>
              IsScalarText(d.root.v, false) && RootText(d.root) == d.root.v && DocumentDepth(d) <= MAX_DEPTH
    ensures d.root.Collection? ==>
              CollOk(d.root.c) && RootText(d.root) == CollText(d.root.c) && DocumentDepth(d) == Depth(d.root.c)
  {
    hide AllSpace, IsScalarText, CollOk, CollText, Depth;
  }

  /** Every document of the grammar is accepted when nested at most MAX_DEPTH deep, and
      reported as too deep otherwise. */
  lemma DocumentAccepted(d: Document)
    requires DocumentOk(d)
    ensures ValidateStatus(DocumentText(d)) ==
            if DocumentDepth(d) <= MAX_DEPTH then JSONSuccess else JSONMaxDepthExceeded
  {
    hide *;
    var i, j := DocumentPieces(d);
    DocumentParts(d);
    if d.root.Scalar? {
      ScalarAccepted(DocumentText(d), i, j, d.before, d.root.v, d.after);
    } else {
      CollectionAccepted(DocumentText(d), i, j, d.before, d.root.c, d.after);
    }
  }
}
