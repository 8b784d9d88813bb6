/** Whatever the validator accepts is a document of the grammar, so acceptance is exact. */
module JsonExact {
  import opened Bytes
  import opened JsonScan
  import opened JsonText
  import opened JsonGrammar
  import opened JsonAccept

  lemma {:induction false} SpaceFound(b: bytes, i: nat)
    requires i <= |b|
    ensures AllSpace(b[i..SpaceEnd(b, i)])
    decreases |b| - i
  {
    if i < |b| && IsSpace(b[i]) {
      SpaceFound(b, i + 1);
      assert b[i..SpaceEnd(b, i)] == [b[i]] + b[i + 1..SpaceEnd(b, i)];
    }
  }

  lemma CommaFound(b: bytes, i: nat) returns (w1: bytes, w2: bytes)
    requires i <= |b| && CommaEnd(b, i).0
    ensures AllSpace(w1) && AllSpace(w2) && At(b, i, w1 + ([COMMA] + w2))
    ensures i + |w1| + 1 + |w2| == CommaEnd(b, i).1
  {
    var s, k := SpaceEnd(b, i), CommaEnd(b, i).1;
    SpaceFound(b, i);
    SpaceFound(b, s + 1);
    w1, w2 := b[i..s], b[s + 1..k];
    assert b[i..k] == w1 + ([COMMA] + w2);
  }

  lemma NoCommaFound(b: bytes, i: nat) returns (w: bytes)
    requires i <= |b| && !CommaEnd(b, i).0
    ensures AllSpace(w) && At(b, i, w) && i + |w| == CommaEnd(b, i).1
  {
    SpaceFound(b, i);
    w := b[i..SpaceEnd(b, i)];
  }

  lemma MemberValueParts(b: bytes, i: nat) returns (j: nat, s: nat, v: nat)
    requires MemberValue(b, i).Some? && MemberValue(b, i).value <= |b|
    ensures StringEnd(b, i) == Some(j) && s == SpaceEnd(b, j) && v == SpaceEnd(b, s + 1) && MemberValue(b, i) == Some(v)
    ensures i <= j <= s < v <= |b| && b[s] == COLON
  {
    j := StringEnd(b, i).value;
    s := SpaceEnd(b, j);
    v := SpaceEnd(b, s + 1);
    hide StringEnd, SpaceEnd;
  }

  /** A key with its colon, as a text. */
  lemma KeyFound(b: bytes, i: nat) returns (key: bytes, w1: bytes, w2: bytes)
    requires MemberValue(b, i).Some? && MemberValue(b, i).value <= |b|
    ensures IsStringText(key, false) && AllSpace(w1) && AllSpace(w2)
    ensures At(b, i, key + (w1 + ([COLON] + w2)))
    ensures MemberValue(b, i).value == i + |key| + |w1| + 1 + |w2|
  {
    hide *;
    var j, s, v := MemberValueParts(b, i);
    StringFound(b, i);
    SpaceFound(b, j);
    SpaceFound(b, s + 1);
    key, w1, w2 := b[i..j], b[j..s], b[s + 1..v];
    AtSlice(b, i, j);
    AtSlice(b, j, s);
    AtOne(b, s, COLON);
    AtSlice(b, s + 1, v);
    var tail := [COLON] + w2;
    AtConcat(b, s, [COLON], w2);
    AtConcat(b, j, w1, tail);
    AtConcat(b, i, key, w1 + tail);
  }

  lemma ScalarSize(b: bytes, v: nat)
    requires ScalarEnd(b, v).Some?
    ensures v <= ScalarEnd(b, v).value <= |b|
  {
  }

  lemma MemberIs(key: bytes, w1: bytes, w2: bytes, v: bytes)
    requires IsStringText(key, false) && AllSpace(w1) && AllSpace(w2) && IsScalarText(v, false)
    ensures ItemOk(LBRACE, Member(key, w1, w2, v))
    ensures ItemText(Member(key, w1, w2, v)) == key + (w1 + ([COLON] + w2)) + v
  {
    hide IsStringText, IsScalarText;
  }

  lemma MemberFound(b: bytes, i: nat) returns (it: Item)
    requires MemberValue(b, i).Some? && ScalarEnd(b, MemberValue(b, i).value).Some?
    ensures ItemOk(LBRACE, it) && At(b, i, ItemText(it))
    ensures i + |ItemText(it)| == ScalarEnd(b, MemberValue(b, i).value).value
  {
    hide *;
    var v := MemberValue(b, i).value;
    ScalarSize(b, v);
    var u := ScalarEnd(b, v).value;
    ScalarFound(b, v);
    var key, w1, w2 := KeyFound(b, i);
    it := Member(key, w1, w2, b[v..u]);
    MemberIs(key, w1, w2, b[v..u]);
    AtSlice(b, v, u);
    AtConcat(b, i, key + (w1 + ([COLON] + w2)), b[v..u]);
  }

  /** What a segment text promises about the byte after it. */
  predicate Followed(b: bytes, i: nat, needsNest: bool) {
    needsNest ==> i < |b| && !IsClose(b[i])
  }

  lemma MoreText(it: Item, w1: bytes, w2: bytes, rest: Segment)
    ensures SegmentText(More(it, w1, w2, rest)) == ItemText(it) + (w1 + ([COMMA] + w2) + SegmentText(rest))
  {
    var r := SegmentText(rest);
    assert w1 + ([COMMA] + w2) + r == w1 + ([COMMA] + (w2 + r));
  }

  lemma JoinMore(b: bytes, i: nat, it: Item, w1: bytes, w2: bytes, rest: Segment)
    requires At(b, i, ItemText(it)) && At(b, i + |ItemText(it)|, w1 + ([COMMA] + w2))
    requires At(b, i + |ItemText(it)| + |w1| + 1 + |w2|, SegmentText(rest))
    ensures At(b, i, SegmentText(More(it, w1, w2, rest)))
    ensures |SegmentText(More(it, w1, w2, rest))| == |ItemText(it)| + |w1| + 1 + |w2| + |SegmentText(rest)|
  {
    hide *;
    var x, c, r := ItemText(it), w1 + ([COMMA] + w2), SegmentText(rest);
    MoreText(it, w1, w2, rest);
    AtConcat(b, i + |x|, c, r);
    AtConcat(b, i, x, c + r);
  }

  lemma JoinLast(b: bytes, i: nat, it: Item, w: bytes)
    requires At(b, i, ItemText(it)) && At(b, i + |ItemText(it)|, w)
    ensures At(b, i, SegmentText(Last(it, w)))
    ensures |SegmentText(Last(it, w))| == |ItemText(it)| + |w|
  {
    AtConcat(b, i, ItemText(it), w);
  }

  /** Extending a found item by what follows it. */
  lemma {:induction false} ItemThenRest(b: bytes, i: nat, open: byte, it: Item) returns (seg: Segment)
    requires i <= |b| && IsOpen(open) && ItemOk(open, it) && At(b, i, ItemText(it)) && |ItemText(it)| > 0
    ensures SegmentOk(open, seg) && At(b, i, SegmentText(seg))
    ensures var (comma, k) := CommaEnd(b, i + |ItemText(it)|);
            i + |SegmentText(seg)| == if comma then ModeEnd(b, k, open) else k
    ensures Followed(b, i + |SegmentText(seg)|, NeedsNest(seg))
    decreases |b| - i, 0
  {
    var j := i + |ItemText(it)|;
    hide ModeEnd, CommaEnd, ItemOk, ItemText;
    var (comma, k) := CommaEnd(b, j);
    if comma {
      var w1, w2 := CommaFound(b, j);
      var rest := SegmentFound(b, k, open);
      seg := More(it, w1, w2, rest);
      JoinMore(b, i, it, w1, w2, rest);
    } else {
      var w := NoCommaFound(b, j);
      seg := Last(it, w);
      JoinLast(b, i, it, w);
    }
  }

  lemma ElementFound(b: bytes, i: nat) returns (it: Item)
    requires ScalarEnd(b, i).Some?
    ensures ItemOk(LSQUARE, it) && At(b, i, ItemText(it)) && i + |ItemText(it)| == ScalarEnd(b, i).value
  {
    ScalarFound(b, i);
    it := Element(b[i..ScalarEnd(b, i).value]);
  }

  lemma ModeEndElement(b: bytes, i: nat)
    requires ScalarEnd(b, i).Some?
    ensures var (comma, k) := CommaEnd(b, ScalarEnd(b, i).value);
            ModeEnd(b, i, LSQUARE) == if comma then ModeEnd(b, k, LSQUARE) else k
  {
  }

  lemma ModeEndMember(b: bytes, i: nat)
    requires MemberValue(b, i).Some?
    ensures var v := MemberValue(b, i).value;
            ModeEnd(b, i, LBRACE) ==
            if v < |b| && IsOpen(b[v]) then v
            else match ScalarEnd(b, v)
                 case None => i
                 case Some(u) => var (comma, k) := CommaEnd(b, u); if comma then ModeEnd(b, k, LBRACE) else k
  {
  }

  lemma ModeEndNone(b: bytes, i: nat, open: byte)
    requires IsOpen(open) && (if open == LSQUARE then ScalarEnd(b, i).None? else MemberValue(b, i).None?)
    ensures ModeEnd(b, i, open) == i
  {
  }

  /** What the scalar loops pass over is a segment text. */
  lemma {:induction false} SegmentFound(b: bytes, i: nat, open: byte) returns (seg: Segment)
    requires i <= |b| && IsOpen(open)
    ensures SegmentOk(open, seg) && At(b, i, SegmentText(seg)) && i + |SegmentText(seg)| == ModeEnd(b, i, open)
    ensures Followed(b, i + |SegmentText(seg)|, NeedsNest(seg))
    decreases |b| - i, 1
  {
    hide ModeEnd, ScalarEnd, MemberValue, CommaEnd, ItemOk, ItemText, IsStringText;
    if open == LSQUARE && ScalarEnd(b, i).Some? {
      var it := ElementFound(b, i);
      ModeEndElement(b, i);
      seg := ItemThenRest(b, i, open, it);
    } else if open == LBRACE && MemberValue(b, i).Some? {
      var v := MemberValue(b, i).value;
      ModeEndMember(b, i);
      if v < |b| && IsOpen(b[v]) {
        var key, w1, w2 := KeyFound(b, i);
        seg := BareKey(key, w1, w2);
      } else if ScalarEnd(b, v).Some? {
        var it := MemberFound(b, i);
        seg := ItemThenRest(b, i, open, it);
      } else {
        seg := Empty;
      }
    } else {
      ModeEndNone(b, i, open);
      seg := Empty;
    }
  }

  // ---- collections ----

  lemma JoinColl(b: bytes, i: nat, open: byte, w: bytes, seg: Segment, t: Tail)
    requires At(b, i, [open]) && At(b, i + 1, w) && At(b, i + 1 + |w|, SegmentText(seg))
    requires At(b, i + 1 + |w| + |SegmentText(seg)|, TailText(open, t))
    ensures At(b, i, CollText(Coll(open, w, seg, t)))
    ensures |CollText(Coll(open, w, seg, t))| == 1 + |w| + |SegmentText(seg)| + |TailText(open, t)|
  {
    hide *;
    var g, r := SegmentText(seg), TailText(open, t);
    CollTextIs(Coll(open, w, seg, t));
    var gr := g + r;
    var wgr := w + gr;
    AtConcat(b, i + 1 + |w|, g, r);
    AtConcat(b, i + 1, w, gr);
    AtConcat(b, i, [open], wgr);
  }

  lemma JoinNest(b: bytes, i: nat, open: byte, inner: Coll, w: bytes, a: After, t: Tail)
    requires At(b, i, CollText(inner)) && At(b, i + |CollText(inner)|, w)
    requires At(b, i + |CollText(inner)| + |w|, AfterText(a))
    requires At(b, i + |CollText(inner)| + |w| + |AfterText(a)|, TailText(open, t))
    ensures At(b, i, TailText(open, Nest(inner, w, a, t)))
    ensures |TailText(open, Nest(inner, w, a, t))| == |CollText(inner)| + |w| + |AfterText(a)| + |TailText(open, t)|
  {
    NestText(open, Nest(inner, w, a, t));
    hide *;
    var c, x, r := CollText(inner), AfterText(a), TailText(open, t);
    AtConcat(b, i + |c| + |w|, x, r);
    AtConcat(b, i + |c|, w, x + r);
    AtConcat(b, i, c, w + (x + r));
  }

  lemma ScalarsEndFound(b: bytes, i: nat, open: byte) returns (w: bytes, seg: Segment)
    requires i <= |b| && IsOpen(open)
    ensures AllSpace(w) && SegmentOk(open, seg) && At(b, i, w) && At(b, i + |w|, SegmentText(seg))
    ensures ScalarsEnd(b, i, open) == i + |w| + |SegmentText(seg)|
    ensures Followed(b, ScalarsEnd(b, i, open), NeedsNest(seg))
    ensures seg == Empty ==> ScalarsEnd(b, i, open) == SpaceEnd(b, i)
  {
    hide *;
    var j := SpaceEnd(b, i);
    SpaceFound(b, i);
    w := b[i..j];
    AtSlice(b, i, j);
    seg := SegmentFound(b, j, open);
    ScalarsAfterSpace(b, i, j, open);
    EmptyText();
  }

  lemma SpaceAndSegmentFound(b: bytes, k: nat, open: byte) returns (w: bytes, seg: Segment)
    requires k < |b| && IsOpen(open) && !IsClose(b[k]) && !IsSpace(b[k])
    ensures AllSpace(w) && SegmentOk(open, seg) && At(b, k, w) && At(b, k + |w|, SegmentText(seg))
    ensures ScalarsEnd(b, k, open) == k + |w| + |SegmentText(seg)|
    ensures Followed(b, ScalarsEnd(b, k, open), seg == Empty || NeedsNest(seg))
  {
    hide *;
    w, seg := ScalarsEndFound(b, k, open);
    NoSpace(b, k);
    if seg == Empty { NotCloseFollows(b, k); }
  }

  lemma ResumeCommaFound(b: bytes, i: nat, open: byte) returns (w: bytes, a: After)
    requires i <= |b| && IsOpen(open) && CommaEnd(b, i).0
    ensures a.Comma? && AllSpace(w) && At(b, i, w) && At(b, i + |w|, AfterText(a))
    ensures ScalarsEnd(b, CommaEnd(b, i).1, open) == i + |w| + |AfterText(a)|
    ensures Followed(b, ScalarsEnd(b, CommaEnd(b, i).1, open), a.seg == Empty || NeedsNest(a.seg))
    ensures AllSpace(a.w) && SegmentOk(open, a.seg)
  {
    var k := CommaEnd(b, i).1;
    hide *;
    var w1, w2 := CommaFound(b, i);
    var w', seg := SpaceAndSegmentFound(b, k, open);
    JoinComma(b, i, w1, w2, w', seg);
    w, a := w1, Comma(w2 + w', seg);
    SpaceConcat(w2, w');
  }

  lemma NotCloseFollows(b: bytes, i: nat)
    requires i < |b| && !IsClose(b[i])
    ensures Followed(b, i, true)
  {
  }

  /** What separates a closed nested collection from where the scan resumes. */
  lemma ResumeFound(b: bytes, i: nat, stack: bytes) returns (w: bytes, a: After)
    requires i <= |b| && |stack| > 0 && IsOpen(Top(stack))
    ensures AllSpace(w) && At(b, i, w) && At(b, i + |w|, AfterText(a))
    ensures ResumeEnd(b, i, stack) == i + |w| + |AfterText(a)|
    ensures a.Comma? ==> AllSpace(a.w) && SegmentOk(Top(stack), a.seg)
    ensures a.Comma? ==> Followed(b, ResumeEnd(b, i, stack), a.seg == Empty || NeedsNest(a.seg))
  {
    hide *;
    if CommaEnd(b, i).0 {
      w, a := ResumeCommaFound(b, i, Top(stack));
      ResumeComma(b, i, stack, CommaEnd(b, i).1);
    } else {
      w := NoCommaFound(b, i);
      a := NoComma;
      NoAfter(b, i + |w|);
      ResumeNoComma(b, i, stack, CommaEnd(b, i).1);
    }
  }

  lemma NoAfter(b: bytes, i: nat)
    requires i <= |b|
    ensures AfterText(NoComma) == [] && At(b, i, AfterText(NoComma))
  {
  }

  lemma SpaceConcat(w1: bytes, w2: bytes)
    requires AllSpace(w1) && AllSpace(w2)
    ensures AllSpace(w1 + w2)
  {
  }

  lemma JoinComma(b: bytes, i: nat, w1: bytes, w2: bytes, w3: bytes, seg: Segment)
    requires At(b, i, w1 + ([COMMA] + w2)) && At(b, i + |w1| + 1 + |w2|, w3)
    requires At(b, i + |w1| + 1 + |w2| + |w3|, SegmentText(seg))
    ensures At(b, i, w1) && At(b, i + |w1|, AfterText(Comma(w2 + w3, seg)))
    ensures |AfterText(Comma(w2 + w3, seg))| == 1 + |w2| + |w3| + |SegmentText(seg)|
  {
    var g := SegmentText(seg);
    hide At, SegmentText;
    var k := i + |w1|;
    AtConcat(b, i, w1, [COMMA] + w2);
    AtConcat(b, k + 1 + |w2|, w3, g);
    AtConcat(b, k, [COMMA] + w2, w3 + g);
    assert [COMMA] + w2 + (w3 + g) == [COMMA] + ((w2 + w3) + g);
  }

  lemma NotClosed(b: bytes, i: nat, open: byte, t: Tail)
    requires At(b, i, TailText(open, t)) && IsOpen(open) && i < |b| && !IsClose(b[i])
    ensures t.Nest?
  {
    if t.Close? { CloseEnd(b, i, open); }
  }

  lemma BracketsCases(b: bytes, i: nat, stack: bytes)
    requires Brackets(b, i, stack).0 == JSONSuccess && |stack| <= MAX_DEPTH
    ensures i < |b|
    ensures IsOpen(b[i]) || (IsClose(b[i]) && |stack| > 0 && Matches(Top(stack), b[i]))
    ensures IsOpen(b[i]) ==> |stack| < MAX_DEPTH
  {
    hide ScalarsEnd, AfterClose, Matches, Top;
  }

  lemma MakeColl(c: Coll)
    requires IsOpen(c.open) && AllSpace(c.w) && SegmentOk(c.open, c.seg) && TailOk(c.open, c.tail)
    requires NeedsNest(c.seg) ==> c.tail.Nest?
    ensures CollOk(c) && Depth(c) == 1 + TailDepth(c.tail)
  {
  }

  lemma MakeNest(open: byte, inner: Coll, w: bytes, a: After, t: Tail)
    requires CollOk(inner) && AllSpace(w) && TailOk(open, t)
    requires a.Comma? ==> AllSpace(a.w) && SegmentOk(open, a.seg)
    requires a.Comma? && (a.seg == Empty || NeedsNest(a.seg)) ==> t.Nest?
    ensures TailOk(open, Nest(inner, w, a, t))
    ensures TailDepth(Nest(inner, w, a, t)) == if Depth(inner) > TailDepth(t) then Depth(inner) else TailDepth(t)
  {
  }

  /** A successful run from an open bracket passes over a collection text. */
  lemma {:induction false} CollFound(b: bytes, i: nat, stack: bytes) returns (c: Coll)
    requires Brackets(b, i, stack).0 == JSONSuccess && i < |b| && IsOpen(b[i]) && |stack| <= MAX_DEPTH
    ensures CollOk(c) && At(b, i, CollText(c)) && |stack| + Depth(c) <= MAX_DEPTH
    ensures i + |CollText(c)| <= |b|
    ensures Brackets(b, i, stack) == AfterClose(b, i + |CollText(c)|, stack)
    decreases |b| - i, 0
  {
    hide *;
    BracketsCases(b, i, stack);
    BracketsOpen(b, i, stack);
    var open := b[i];
    var w, seg := ScalarsEndFound(b, i + 1, open);
    var k := ScalarsEnd(b, i + 1, open);
    var t := TailFound(b, k, stack, open);
    if NeedsNest(seg) { FollowedNest(b, k, open, t); }
    AtOne(b, i, open);
    JoinColl(b, i, open, w, seg, t);
    c := Coll(open, w, seg, t);
    MakeColl(c);
  }

  lemma FollowedNest(b: bytes, i: nat, open: byte, t: Tail)
    requires Followed(b, i, true) && At(b, i, TailText(open, t)) && IsOpen(open)
    ensures t.Nest?
  {
    NotClosed(b, i, open, t);
  }

  lemma MatchedClose(b: bytes, i: nat, open: byte)
    requires i < |b| && IsClose(b[i]) && Matches(open, b[i])
    ensures b[i] == CloseOf(open) && At(b, i, TailText(open, Close)) && |TailText(open, Close)| == 1
    ensures TailOk(open, Close) && TailDepth(Close) == 0
  {
    AtOne(b, i, b[i]);
  }

  lemma TopPushed(stack: bytes, open: byte)
    ensures Top(stack + [open]) == open
  {
  }

  /** A successful run inside a collection passes over a tail text and closes it. */
  lemma {:induction false} TailFound(b: bytes, i: nat, stack: bytes, open: byte) returns (t: Tail)
    requires Brackets(b, i, stack + [open]).0 == JSONSuccess && IsOpen(open) && |stack| < MAX_DEPTH
    ensures TailOk(open, t) && At(b, i, TailText(open, t)) && |stack| + 1 + TailDepth(t) <= MAX_DEPTH
    ensures i + |TailText(open, t)| <= |b|
    ensures Brackets(b, i, stack + [open]) == AfterClose(b, i + |TailText(open, t)|, stack)
    decreases |b| - i, 1
  {
    hide *;
    var inside := stack + [open];
    TopPushed(stack, open);
    BracketsCases(b, i, inside);
    if IsOpen(b[i]) {
      var inner := CollFound(b, i, inside);
      var j := i + |CollText(inner)|;
      AfterCloseOpen(b, j, stack, open);
      var w, a := ResumeFound(b, j, inside);
      var m := ResumeEnd(b, j, inside);
      CollNonEmpty(inner);
      var rest := TailFound(b, m, stack, open);
      if a.Comma? && (a.seg == Empty || NeedsNest(a.seg)) { FollowedNest(b, m, open, rest); }
      t := Nest(inner, w, a, rest);
      JoinNest(b, i, open, inner, w, a, rest);
      MakeNest(open, inner, w, a, rest);
    } else {
      t := Close;
      MatchedClose(b, i, open);
      BracketsClose(b, i, stack, open);
    }
  }

  lemma CollNonEmpty(c: Coll)
    ensures |CollText(c)| > 0
  {
  }

  // ---- documents ----

  lemma ValidateParts(b: bytes) returns (i: nat, j: nat)
    requires ValidateStatus(b) == JSONSuccess
    ensures i == SpaceEnd(b, 0) && SpaceEnd(b, j) == |b| && i <= j <= |b|
    ensures ScalarEnd(b, i) == Some(j) || Brackets(b, i, []) == (JSONSuccess, j)
  {
    i := SpaceEnd(b, 0);
    j := if ScalarEnd(b, i).Some? then ScalarEnd(b, i).value else Brackets(b, i, []).1;
    hide ScalarEnd, Brackets, SpaceEnd;
  }

  lemma ValidateSuccess(b: bytes) returns (i: nat, j: nat)
    requires ValidateStatus(b) == JSONSuccess
    ensures i <= j <= |b| && AllSpace(b[..i]) && AllSpace(b[j..])
    ensures ScalarEnd(b, i) == Some(j) || Brackets(b, i, []) == (JSONSuccess, j)
  {
    hide *;
    i, j := ValidateParts(b);
    SpaceFound(b, 0);
    SpaceFound(b, j);
    assert b[0..i] == b[..i] && b[j..|b|] == b[j..];
  }

  lemma JoinDocument(b: bytes, before: bytes, root: Root, after: bytes)
    requires At(b, 0, before) && At(b, |before|, RootText(root)) && At(b, |before| + |RootText(root)|, after)
    requires |before| + |RootText(root)| + |after| == |b|
    ensures DocumentText(Document(before, root, after)) == b
  {
    var r := RootText(root);
    AtConcat(b, |before|, r, after);
    AtConcat(b, 0, before, r + after);
    assert b[0..|b|] == b;
  }

  lemma OutermostClosed(b: bytes, i: nat)
    requires i <= |b|
    ensures AfterClose(b, i, []) == (JSONSuccess, i)
  {
  }

  lemma ScalarRoot(b: bytes, i: nat, j: nat) returns (root: Root)
    requires ScalarEnd(b, i) == Some(j)
    ensures At(b, i, RootText(root)) && i + |RootText(root)| == j
    ensures root.Scalar? && IsScalarText(root.v, false)
  {
    ScalarFound(b, i);
    root := Scalar(b[i..j]);
  }

  lemma CollRoot(b: bytes, i: nat, j: nat) returns (root: Root)
    requires Brackets(b, i, []) == (JSONSuccess, j)
    ensures At(b, i, RootText(root)) && i + |RootText(root)| == j
    ensures root.Collection? && CollOk(root.c) && Depth(root.c) <= MAX_DEPTH
  {
    hide Brackets, CollText, CollOk, Depth;
    BracketsCases(b, i, []);
    var c := CollFound(b, i, []);
    OutermostClosed(b, i + |CollText(c)|);
    root := Collection(c);
  }

  lemma DocumentIs(before: bytes, root: Root, after: bytes)
    requires AllSpace(before) && AllSpace(after)
    requires if root.Scalar? then IsScalarText(root.v, false) else CollOk(root.c) && Depth(root.c) <= MAX_DEPTH
    ensures DocumentOk(Document(before, root, after)) && DocumentDepth(Document(before, root, after)) <= MAX_DEPTH
  {
    hide AllSpace, IsScalarText, CollOk, Depth;
  }

  /** Reading back an accepted buffer as a document. */
  lemma AcceptedIsDocument(b: bytes) returns (d: Document)
    requires ValidateStatus(b) == JSONSuccess
    ensures DocumentOk(d) && DocumentText(d) == b && DocumentDepth(d) <= MAX_DEPTH
  {
    hide *;
    var i, j := ValidateSuccess(b);
    var root;
    if ScalarEnd(b, i) == Some(j) {
      root := ScalarRoot(b, i, j);
    } else {
      root := CollRoot(b, i, j);
    }
    d := Document(b[..i], root, b[j..]);
    assert b[0..i] == b[..i] && b[j..|b|] == b[j..];
    AtSlice(b, 0, i);
    AtSlice(b, j, |b|);
    DocumentIs(b[..i], root, b[j..]);
    JoinDocument(b, b[..i], root, b[j..]);
  }

  /** The validator accepts exactly the documents of the grammar nested at most MAX_DEPTH deep. */
  lemma ValidatorExact(b: bytes)
    ensures ValidateStatus(b) == JSONSuccess <==>
            exists d :: DocumentOk(d) && DocumentText(d) == b && DocumentDepth(d) <= MAX_DEPTH
  {
    hide DocumentOk, DocumentText, DocumentDepth, ValidateStatus;
    if ValidateStatus(b) == JSONSuccess {
      var d := AcceptedIsDocument(b);
    }
    forall d | DocumentOk(d) && DocumentText(d) == b && DocumentDepth(d) <= MAX_DEPTH
      ensures ValidateStatus(b) == JSONSuccess
    {
      DocumentAccepted(d);
    }
  }

  /** The depth error is returned for no document of the grammar that is shallow enough, and
      no two readings of one text disagree about which side of the limit it is on. */
  lemma DepthDecidesStatus(d: Document, e: Document)
    requires DocumentOk(d) && DocumentOk(e) && DocumentText(d) == DocumentText(e)
    ensures DocumentDepth(d) <= MAX_DEPTH <==> DocumentDepth(e) <= MAX_DEPTH
  {
    hide DocumentOk, DocumentText, DocumentDepth, ValidateStatus;
    DocumentAccepted(d);
    DocumentAccepted(e);
  }
}
