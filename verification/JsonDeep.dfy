/** The buffers that are too deep, by the documents they begin like: the depth error is reported exactly if some
    beginning of the buffer is a document deeper than MAX_DEPTH without some of the close brackets it ends with. */
module JsonDeep {
  import opened Bytes
  import opened JsonScan
  import opened JsonGrammar
  import opened JsonAccept
  import opened JsonExact
  import opened JsonPartial
  import opened JsonCut

  // ---- where the loop finds a bracket too many ----

  /** The brackets that are open, and the one that is too many. */
  function DeepStack(b: bytes, i: nat, stack: bytes): bytes
    decreases |b| - i
  {
    if i >= |b| then stack
    else if IsOpen(b[i]) then
      if |stack| >= MAX_DEPTH then stack + [b[i]] else DeepStack(b, ScalarsEnd(b, i + 1, b[i]), stack + [b[i]])
    else if |stack| > 1 then
      var rest := stack[..|stack| - 1];
      DeepStack(b, ResumeEnd(b, i + 1, rest), rest)
    else []
  }

  /** The loop at i finds the bracket at p to be the one too many of f. */
  predicate GoesDeep(b: bytes, i: nat, stack: bytes, p: nat, f: bytes) {
    Brackets(b, i, stack) == (JSONMaxDepthExceeded, p) && DeepStack(b, i, stack) == f && AllOpen(stack)
    && |stack| <= MAX_DEPTH
  }

  lemma DeepNext(b: bytes, i: nat, stack: bytes, p: nat, f: bytes)
    requires GoesDeep(b, i, stack, p, f)
    ensures i < |b| && AtBracket(b, i)
    ensures IsOpen(b[i]) && |stack| == MAX_DEPTH ==> p == i && f == stack + [b[i]]
    ensures IsOpen(b[i]) && |stack| < MAX_DEPTH ==> GoesDeep(b, ScalarsEnd(b, i + 1, b[i]), stack + [b[i]], p, f)
    ensures !IsOpen(b[i]) ==>
              && IsClose(b[i]) && |stack| > 1 && Matches(Top(stack), b[i])
              && var rest := stack[..|stack| - 1]; GoesDeep(b, ResumeEnd(b, i + 1, rest), rest, p, f)
  {
    hide ScalarsEnd, ResumeEnd, Matches, Top, Brackets;
    if i >= |b| {
      BracketsOver(b, i, stack);
    } else if IsOpen(b[i]) {
      BracketsOpened(b, i, stack);
    } else if IsClose(b[i]) && |stack| > 1 && Matches(Top(stack), b[i]) {
      var rest := stack[..|stack| - 1];
      BracketsNested(b, i, stack, rest);
    } else {
      BracketsEnded(b, i, stack);
    }
  }

  /** The bracket too many is open and one more than MAX_DEPTH. */
  lemma {:induction false} DeepAt(b: bytes, i: nat, stack: bytes, p: nat, f: bytes)
    requires GoesDeep(b, i, stack, p, f)
    ensures i <= p < |b| && IsOpen(b[p]) && AllOpen(f) && |f| == MAX_DEPTH + 1
    decreases |b| - i
  {
    hide GoesDeep, ScalarsEnd, ResumeEnd, Matches, Top;
    DeepNext(b, i, stack, p, f);
    DeepParts(b, i, stack, p, f);
    if IsOpen(b[i]) {
      if |stack| < MAX_DEPTH {
        DeepAt(b, ScalarsEnd(b, i + 1, b[i]), stack + [b[i]], p, f);
      } else {
        DeepOpen(b, i, stack, p, f);
      }
    } else {
      var rest := stack[..|stack| - 1];
      DeepAt(b, ResumeEnd(b, i + 1, rest), rest, p, f);
    }
  }

  lemma DeepOpen(b: bytes, i: nat, stack: bytes, p: nat, f: bytes)
    requires GoesDeep(b, i, stack, p, f) && i < |b| && IsOpen(b[i])
    ensures AllOpen(stack + [b[i]])
  {
    hide Brackets, DeepStack;
  }

  lemma DeepParts(b: bytes, i: nat, stack: bytes, p: nat, f: bytes)
    requires GoesDeep(b, i, stack, p, f)
    ensures AllOpen(stack) && |stack| <= MAX_DEPTH && Brackets(b, i, stack) == (JSONMaxDepthExceeded, p)
  {
    hide Brackets, DeepStack, AllOpen;
  }

  // ---- a bracket too many makes a document ----

  /** c is b up to the bracket at p, with close brackets for f behind it. */
  predicate Completes(c: bytes, b: bytes, p: nat, f: bytes) {
    && p < |b| && |c| == p + 1 + |f| && c[..p + 1] == b[..p + 1]
    && forall j {:trigger f[j]} :: 0 <= j < |f| ==> c[|c| - 1 - j] == CloseOf(f[j])
  }

  lemma CompletesAt(c: bytes, b: bytes, p: nat, f: bytes, i: nat, t: bytes)
    requires Completes(c, b, p, f) && At(b, i, t) && i + |t| <= p + 1
    ensures At(c, i, t)
  {
    assert c[i..i + |t|] == c[..p + 1][i..i + |t|] == b[..p + 1][i..i + |t|] == b[i..i + |t|];
  }

  lemma CompletesByte(c: bytes, b: bytes, p: nat, f: bytes, i: nat)
    requires Completes(c, b, p, f) && i <= p
    ensures i < |b| && i < |c| && c[i] == b[i]
  {
    assert c[i] == c[..p + 1][i] == b[..p + 1][i];
  }

  /** The close bracket for the collection on top of stack. */
  lemma CompletesClose(c: bytes, b: bytes, p: nat, f: bytes, stack: bytes, open: byte)
    requires Completes(c, b, p, f) && stack + [open] <= f
    ensures |stack| < |c| && At(c, |c| - 1 - |stack|, [CloseOf(open)])
  {
    assert f[|stack|] == (stack + [open])[|stack|] == open;
    AtOne(c, |c| - 1 - |stack|, CloseOf(open));
  }

  lemma InnermostIs(b: bytes, c: bytes, i: nat, stack: bytes, p: nat, f: bytes) returns (x: Coll)
    requires GoesDeep(b, i, stack, p, f) && i < |b| && IsOpen(b[i]) && |stack| == MAX_DEPTH && Completes(c, b, p, f)
    ensures CollOk(x) && Depth(x) == 1 && At(c, i, CollText(x)) && |CollText(x)| == 2 && i + 2 + |stack| == |c|
    ensures stack + [b[i]] <= f
  {
    DeepNext(b, i, stack, p, f);
    x := Coll(b[i], [], Empty, Close);
    CompletesByte(c, b, p, f, i);
    CompletesClose(c, b, p, f, stack, b[i]);
    hide GoesDeep, Completes, At;
    AtOne(c, i, b[i]);
    AtConcat(c, i, [b[i]], [CloseOf(b[i])]);
    assert CollText(x) == [b[i]] + [CloseOf(b[i])];
  }

  /** A collection that the run passes, or in which it goes too deep. */
  lemma {:induction false} DeepColl(b: bytes, c: bytes, i: nat, stack: bytes, p: nat, f: bytes)
    returns (x: Coll, deep: bool)
    requires GoesDeep(b, i, stack, p, f) && i < |b| && IsOpen(b[i]) && Completes(c, b, p, f)
    ensures CollOk(x) && At(c, i, CollText(x)) && |CollText(x)| > 0
    ensures deep ==> stack + [b[i]] <= f && |stack| + Depth(x) > MAX_DEPTH && i + |CollText(x)| + |stack| == |c|
    ensures !deep ==>
              i + |CollText(x)| <= p && |stack| > 0 && GoesDeep(b, ResumeEnd(b, i + |CollText(x)|, stack), stack, p, f)
    decreases |b| - i, 0
  {
    hide *;
    DeepNext(b, i, stack, p, f);
    DeepParts(b, i, stack, p, f);
    var open := b[i];
    if |stack| == MAX_DEPTH {
      x := InnermostIs(b, c, i, stack, p, f);
      deep := true;
    } else {
      var k := ScalarsEnd(b, i + 1, open);
      DeepAt(b, k, stack + [open], p, f);
      var w, seg := ScalarsEndFound(b, i + 1, open);
      var t;
      t, deep := DeepTail(b, c, k, stack, open, p, f);
      HeadCompletes(b, c, i, p, f, w, seg);
      if NeedsNest(seg) { FollowedNest(c, k, open, t); }
      AtOne(c, i, open);
      JoinColl(c, i, open, w, seg, t);
      x := Coll(open, w, seg, t);
      MakeColl(x);
      TailFilled(open, t);
    }
  }

  lemma TailFilled(open: byte, t: Tail)
    ensures |TailText(open, t)| > 0
  {
  }

  lemma HeadCompletes(b: bytes, c: bytes, i: nat, p: nat, f: bytes, w: bytes, seg: Segment)
    requires Completes(c, b, p, f) && At(b, i + 1, w) && At(b, i + 1 + |w|, SegmentText(seg))
    requires var k := i + 1 + |w| + |SegmentText(seg)|; k <= p && Followed(b, k, NeedsNest(seg))
    ensures var k := i + 1 + |w| + |SegmentText(seg)|;
            i < |b| && i < |c| && c[i] == b[i] && k < |c| && Followed(c, k, NeedsNest(seg))
    ensures At(c, i + 1, w) && At(c, i + 1 + |w|, SegmentText(seg))
  {
    hide At, Completes, SegmentText, NeedsNest;
    CompletesAt(c, b, p, f, i + 1, w);
    CompletesAt(c, b, p, f, i + 1 + |w|, SegmentText(seg));
    CompletesByte(c, b, p, f, i);
    CompletesByte(c, b, p, f, i + 1 + |w| + |SegmentText(seg)|);
  }

  /** The rest of a collection that the run passes, or in which it goes too deep. */
  lemma {:induction false} DeepTail(b: bytes, c: bytes, k: nat, stack: bytes, open: byte, p: nat, f: bytes)
    returns (t: Tail, deep: bool)
    requires GoesDeep(b, k, stack + [open], p, f) && IsOpen(open) && |stack| < MAX_DEPTH && Completes(c, b, p, f)
    ensures TailOk(open, t) && At(c, k, TailText(open, t))
    ensures deep ==>
              stack + [open] <= f && |stack| + 1 + TailDepth(t) > MAX_DEPTH && k + |TailText(open, t)| + |stack| == |c|
    ensures !deep ==>
              k + |TailText(open, t)| <= p && |stack| > 0
              && GoesDeep(b, ResumeEnd(b, k + |TailText(open, t)|, stack), stack, p, f)
    decreases |b| - k, 1
  {
    hide *;
    var inside := stack + [open];
    DeepNext(b, k, inside, p, f);
    TopPushed(stack, open);
    InsideStack(stack, open);
    if IsOpen(b[k]) {
      var inner, d := DeepColl(b, c, k, inside, p, f);
      if d {
        t := ClosedBehind(b, c, k, stack, open, p, f, inner);
        deep := true;
      } else {
        t, deep := DeepRest(b, c, k, stack, open, p, f, inner);
      }
    } else {
      DeepClosed(b, c, k, stack, open, p, f);
      t := Close;
      deep := false;
    }
  }

  lemma InsideStack(stack: bytes, open: byte)
    ensures |stack + [open]| == |stack| + 1 && (stack + [open])[..|stack + [open]| - 1] == stack
  {
  }

  lemma DeepClosed(b: bytes, c: bytes, k: nat, stack: bytes, open: byte, p: nat, f: bytes)
    requires k < |b| && IsClose(b[k]) && Matches(open, b[k]) && |stack| > 0 && IsOpen(open) && Completes(c, b, p, f)
    requires GoesDeep(b, ResumeEnd(b, k + 1, stack), stack, p, f)
    ensures TailOk(open, Close) && At(c, k, TailText(open, Close)) && |TailText(open, Close)| == 1 && k + 1 <= p
  {
    hide *;
    DeepAt(b, ResumeEnd(b, k + 1, stack), stack, p, f);
    ResumeLater(b, k + 1, stack);
    MatchedClose(b, k, open);
    CompletesAt(c, b, p, f, k, TailText(open, Close));
  }

  lemma ResumeLater(b: bytes, i: nat, stack: bytes)
    requires |stack| > 0
    ensures i <= ResumeEnd(b, i, stack)
  {
    hide ResumeEnd;
  }

  /** A collection that is too deep is followed by the close bracket of the one around it. */
  lemma ClosedBehind(b: bytes, c: bytes, k: nat, stack: bytes, open: byte, p: nat, f: bytes, inner: Coll)
    returns (t: Tail)
    requires Completes(c, b, p, f) && CollOk(inner) && At(c, k, CollText(inner)) && IsOpen(open) && k < |b|
    requires stack + [open] + [b[k]] <= f && |stack| + 1 + Depth(inner) > MAX_DEPTH
             && k + |CollText(inner)| + |stack| + 1 == |c|
    ensures TailOk(open, t) && At(c, k, TailText(open, t)) && stack + [open] <= f
    ensures |stack| + 1 + TailDepth(t) > MAX_DEPTH && k + |TailText(open, t)| + |stack| == |c|
  {
    hide *;
    t := Nest(inner, [], NoComma, Close);
    StackPrefix(stack, open, b[k], f);
    CompletesClose(c, b, p, f, stack, open);
    var j := k + |CollText(inner)|;
    NothingAt(c, j);
    JsonExact.NoAfter(c, j);
    CloseIs(open);
    JoinNest(c, k, open, inner, [], NoComma, Close);
    NoSpaceText();
    MakeNest(open, inner, [], NoComma, Close);
  }

  lemma StackPrefix(stack: bytes, open: byte, next: byte, f: bytes)
    requires stack + [open] + [next] <= f
    ensures stack + [open] <= f
  {
    assert (stack + [open] + [next])[..|stack| + 1] == stack + [open];
  }

  lemma NothingAt(c: bytes, j: nat)
    requires j <= |c|
    ensures At(c, j, [])
  {
  }

  lemma CloseIs(open: byte)
    ensures TailText(open, Close) == [CloseOf(open)] && TailDepth(Close) == 0 && TailOk(open, Close)
  {
  }

  lemma NoSpaceText()
    ensures AllSpace([])
  {
  }

  /** A collection that is passed is followed by the rest of the one around it. */
  lemma {:induction false} DeepRest(b: bytes, c: bytes, k: nat, stack: bytes, open: byte, p: nat, f: bytes, inner: Coll)
    returns (t: Tail, deep: bool)
    requires Completes(c, b, p, f) && CollOk(inner) && At(c, k, CollText(inner)) && |CollText(inner)| > 0
    requires k < |b| && IsOpen(open) && |stack| < MAX_DEPTH && k + |CollText(inner)| <= p
    requires var inside := stack + [open]; GoesDeep(b, ResumeEnd(b, k + |CollText(inner)|, inside), inside, p, f)
    ensures TailOk(open, t) && At(c, k, TailText(open, t))
    ensures deep ==>
              stack + [open] <= f && |stack| + 1 + TailDepth(t) > MAX_DEPTH && k + |TailText(open, t)| + |stack| == |c|
    ensures !deep ==>
              k + |TailText(open, t)| <= p && |stack| > 0
              && GoesDeep(b, ResumeEnd(b, k + |TailText(open, t)|, stack), stack, p, f)
    decreases |b| - k, 0
  {
    hide *;
    var inside, j := stack + [open], k + |CollText(inner)|;
    var m := ResumeEnd(b, j, inside);
    TopPushed(stack, open);
    InsideStack(stack, open);
    DeepAt(b, m, inside, p, f);
    ResumeLater(b, j, inside);
    var w, a := ResumeFound(b, j, inside);
    var rest;
    rest, deep := DeepTail(b, c, m, stack, open, p, f);
    ResumeCompletes(b, c, j, p, f, w, a);
    if a.Comma? && (a.seg == Empty || NeedsNest(a.seg)) { FollowedNest(c, m, open, rest); }
    t := Nest(inner, w, a, rest);
    JoinNest(c, k, open, inner, w, a, rest);
    MakeNest(open, inner, w, a, rest);
  }

  lemma ResumeCompletes(b: bytes, c: bytes, j: nat, p: nat, f: bytes, w: bytes, a: After)
    requires Completes(c, b, p, f) && At(b, j, w) && At(b, j + |w|, AfterText(a))
    requires var m := j + |w| + |AfterText(a)|;
             m <= p && (a.Comma? ==> Followed(b, m, a.seg == Empty || NeedsNest(a.seg)))
    ensures At(c, j, w) && At(c, j + |w|, AfterText(a))
    ensures var m := j + |w| + |AfterText(a)|; a.Comma? ==> Followed(c, m, a.seg == Empty || NeedsNest(a.seg))
  {
    hide At, Completes, AfterText, NeedsNest;
    CompletesAt(c, b, p, f, j, w);
    CompletesAt(c, b, p, f, j + |w|, AfterText(a));
    CompletesByte(c, b, p, f, j + |w| + |AfterText(a)|);
  }

  lemma {:induction false} CloseAllAt(f: bytes, j: nat)
    requires j < |f|
    ensures |CloseAll(f)| == |f| && CloseAll(f)[|f| - 1 - j] == CloseOf(f[j])
    decreases |f|
  {
    var rest := f[..|f| - 1];
    if j < |rest| {
      CloseAllAt(rest, j);
    } else if rest != [] {
      CloseAllAt(rest, 0);
    }
  }

  lemma ClosedCompletes(b: bytes, p: nat, f: bytes)
    requires p < |b| && f != []
    ensures Completes(b[..p + 1] + CloseAll(f), b, p, f)
  {
    hide CloseAll, CloseOf;
    var c := b[..p + 1] + CloseAll(f);
    CloseAllAt(f, 0);
    forall j | 0 <= j < |f| ensures c[|c| - 1 - j] == CloseOf(f[j]) {
      CloseAllAt(f, j);
      assert |c| - 1 - j - (p + 1) == |f| - 1 - j;
    }
    assert c[..p + 1] == b[..p + 1];
  }

  lemma DeepStart(b: bytes) returns (i: nat, p: nat, f: bytes)
    requires ValidateStatus(b) == JSONMaxDepthExceeded
    ensures i == SpaceEnd(b, 0) < |b| && GoesDeep(b, i, [], p, f) && IsOpen(b[i])
  {
    i := SpaceEnd(b, 0);
    p, f := Brackets(b, i, []).1, DeepStack(b, i, []);
    hide Brackets, DeepStack, ScalarEnd, SpaceEnd;
    DeepNext(b, i, [], p, f);
  }

  /** What is too deep begins like a document that is too deep. */
  lemma DeepBegins(b: bytes) returns (k: nat, t: bytes, d: Document)
    requires ValidateStatus(b) == JSONMaxDepthExceeded
    ensures k <= |b| && AllClose(t) && DocumentOk(d) && DocumentDepth(d) > MAX_DEPTH && DocumentText(d) == b[..k] + t
  {
    hide *;
    var i, p, f := DeepStart(b);
    DeepAt(b, i, [], p, f);
    SomeDepth(f);
    k, t := p + 1, CloseAll(f);
    var c := b[..k] + t;
    ClosedCompletes(b, p, f);
    ClosesClose(f);
    var x, deep := DeepColl(b, c, i, [], p, f);
    DeepDocument(b, c, i, p, f, x);
    d := Document(b[..i], Collection(x), []);
  }

  lemma SomeDepth(f: bytes)
    ensures |f| == MAX_DEPTH + 1 ==> f != [] && |f| > 0
  {
  }

  lemma DeepDocument(b: bytes, c: bytes, i: nat, p: nat, f: bytes, x: Coll)
    requires i == SpaceEnd(b, 0) <= p && Completes(c, b, p, f) && CollOk(x) && At(c, i, CollText(x))
             && i + |CollText(x)| == |c|
    requires Depth(x) > MAX_DEPTH
    ensures var d := Document(b[..i], Collection(x), []);
            DocumentOk(d) && DocumentDepth(d) > MAX_DEPTH && DocumentText(d) == c
  {
    SpaceFound(b, 0);
    assert b[0..i] == b[..i];
    AtSlice(b, 0, i);
    CompletesAt(c, b, p, f, 0, b[..i]);
    hide Completes, CollOk, CollText, Depth, SpaceEnd, At;
    NothingAt(c, |c|);
    NoSpaceText();
    JoinDocument(c, b[..i], Collection(x), []);
  }

  // ---- a document that is too deep makes what begins like it too deep ----

  /** b and c agree up to n. */
  predicate Same(b: bytes, c: bytes, n: nat) {
    n <= |b| && n <= |c| && b[..n] == c[..n]
  }

  lemma SameAt(b: bytes, c: bytes, n: nat, i: nat, t: bytes)
    requires Same(b, c, n) && At(c, i, t) && i + |t| <= n
    ensures At(b, i, t)
  {
    assert b[i..i + |t|] == b[..n][i..i + |t|] == c[..n][i..i + |t|] == c[i..i + |t|];
  }

  lemma SameOne(b: bytes, c: bytes, n: nat, i: nat)
    requires Same(b, c, n) && i < n
    ensures i < |b| && i < |c| && b[i] == c[i]
  {
    assert b[i] == b[..n][i] == c[..n][i];
  }

  lemma ScalarsSame(b: bytes, c: bytes, n: nat, i: nat, open: byte)
    requires Same(b, c, n) && i <= n && IsOpen(open) && AtBracket(c, ScalarsEnd(c, i, open))
             && ScalarsEnd(c, i, open) < n
    ensures ScalarsEnd(b, i, open) == ScalarsEnd(c, i, open)
  {
    hide *;
    var k := ScalarsEnd(c, i, open);
    SameLength(b, c, n);
    var w, seg := ScalarsEndFound(c, i, open);
    SameAt(b, c, n, i, w);
    SameAt(b, c, n, i + |w|, SegmentText(seg));
    SameFollows(b, c, n, k, NeedsNest(seg));
    SegmentSkipped(b, i + |w|, open, seg);
    SegmentStart(b, i + |w|, seg);
    SpaceSkipped(b, i, w);
    ScalarsAfterSpace(b, i, i + |w|, open);
  }

  lemma SameLength(b: bytes, c: bytes, n: nat)
    requires Same(b, c, n)
    ensures n <= |b| && n <= |c|
  {
  }

  lemma SameFollows(b: bytes, c: bytes, n: nat, k: nat, needsNest: bool)
    requires Same(b, c, n) && k < n && AtBracket(c, k) && Followed(c, k, needsNest)
    ensures Follows(b, k, needsNest) && AtBracket(b, k)
  {
    SameOne(b, c, n, k);
  }

  lemma CommaSame(b: bytes, c: bytes, n: nat, i: nat)
    requires Same(b, c, n) && i <= n && CommaEnd(c, i).1 < n && (CommaEnd(c, i).0 || AtBracket(c, CommaEnd(c, i).1))
    ensures CommaEnd(b, i) == CommaEnd(c, i)
  {
    var k := CommaEnd(c, i).1;
    SameOne(b, c, n, k);
    hide CommaEnd, At, AllSpace, Same;
    if CommaEnd(c, i).0 {
      var w1, w2 := CommaFound(c, i);
      SameAt(b, c, n, i, w1 + ([COMMA] + w2));
      CommaSkipped(b, i, w1, w2);
    } else {
      var w := NoCommaFound(c, i);
      SameAt(b, c, n, i, w);
      NoCommaSkipped(b, i, w);
    }
  }

  lemma CommaBefore(c: bytes, i: nat, stack: bytes)
    requires |stack| > 0
    ensures CommaEnd(c, i).1 <= ResumeEnd(c, i, stack)
  {
    CommaThenScalars(c, i, stack);
    hide CommaEnd, ResumeEnd, ScalarsEnd;
    if CommaEnd(c, i).0 {
      ScalarsLater(c, CommaEnd(c, i).1, Top(stack));
    }
  }

  lemma ScalarsLater(c: bytes, i: nat, open: byte)
    ensures i <= ScalarsEnd(c, i, open)
  {
    hide ScalarsEnd;
  }

  lemma ResumeSame(b: bytes, c: bytes, n: nat, i: nat, stack: bytes)
    requires Same(b, c, n) && i <= n && |stack| > 0 && IsOpen(Top(stack))
    requires AtBracket(c, ResumeEnd(c, i, stack)) && ResumeEnd(c, i, stack) < n
    ensures ResumeEnd(b, i, stack) == ResumeEnd(c, i, stack)
  {
    CommaThenScalars(b, i, stack);
    CommaThenScalars(c, i, stack);
    CommaBefore(c, i, stack);
    hide *;
    CommaSame(b, c, n, i);
    if CommaEnd(c, i).0 {
      ScalarsSame(b, c, n, CommaEnd(c, i).1, Top(stack));
    }
  }

  /** Where the buffers agree, the loop goes too deep in both. */
  lemma {:induction false} DeepSame(b: bytes, c: bytes, n: nat, i: nat, stack: bytes, p: nat, f: bytes)
    requires Same(b, c, n) && GoesDeep(c, i, stack, p, f) && p < n
    ensures Brackets(b, i, stack).0 == JSONMaxDepthExceeded && i < |b| && b[i] == c[i]
    decreases |c| - i
  {
    hide *;
    DeepAt(c, i, stack, p, f);
    DeepNext(c, i, stack, p, f);
    DeepParts(c, i, stack, p, f);
    SameOne(b, c, n, i);
    OpenPrefix(stack, c[i]);
    if IsOpen(c[i]) {
      BracketsOpened(b, i, stack);
      if |stack| < MAX_DEPTH {
        var k, inside := ScalarsEnd(c, i + 1, c[i]), stack + [c[i]];
        DeepAt(c, k, inside, p, f);
        DeepNext(c, k, inside, p, f);
        ScalarsLater(c, i + 1, c[i]);
        ScalarsSame(b, c, n, i + 1, c[i]);
        DeepSame(b, c, n, k, inside, p, f);
      }
    } else {
      DeepSameClosed(b, c, n, i, stack, p, f);
    }
  }

  lemma {:induction false} DeepSameClosed(b: bytes, c: bytes, n: nat, i: nat, stack: bytes, p: nat, f: bytes)
    requires Same(b, c, n) && p < n && i < |b| && i < |c| && b[i] == c[i] && IsClose(c[i]) && |stack| > 1
             && Matches(Top(stack), c[i])
    requires var rest := stack[..|stack| - 1]; AllOpen(rest) && GoesDeep(c, ResumeEnd(c, i + 1, rest), rest, p, f)
    ensures Brackets(b, i, stack).0 == JSONMaxDepthExceeded
    decreases |c| - i, 0
  {
    hide *;
    var rest := stack[..|stack| - 1];
    var k := ResumeEnd(c, i + 1, rest);
    DeepAt(c, k, rest, p, f);
    DeepNext(c, k, rest, p, f);
    ResumeLater(c, i + 1, rest);
    OpenPrefix(rest, 0);
    ResumeSame(b, c, n, i + 1, rest);
    BracketsNested(b, i, stack, rest);
    DeepSame(b, c, n, k, rest, p, f);
  }

  lemma DeepStatus(b: bytes, i: nat)
    requires i == SpaceEnd(b, 0) < |b| && IsOpen(b[i]) && Brackets(b, i, []).0 == JSONMaxDepthExceeded
    ensures ValidateStatus(b) == JSONMaxDepthExceeded
  {
    hide Brackets;
    NotAScalar(b, i);
  }

  lemma SpaceSame(b: bytes, c: bytes, n: nat)
    requires Same(b, c, n) && SpaceEnd(c, 0) < n && !IsSpace(c[SpaceEnd(c, 0)])
    ensures SpaceEnd(b, 0) == SpaceEnd(c, 0)
  {
    var i := SpaceEnd(c, 0);
    hide At, SpaceEnd;
    SpaceFound(c, 0);
    SameOne(b, c, n, i);
    AtSlice(c, 0, i);
    SameAt(b, c, n, 0, c[0..i]);
    SpaceSkipped(b, 0, c[0..i]);
  }

  /** Beginning like a document that is too deep. */
  lemma BeginsDeep(b: bytes, k: nat, t: bytes)
    requires k <= |b| && AllClose(t) && ValidateStatus(b[..k] + t) == JSONMaxDepthExceeded
    ensures ValidateStatus(b) == JSONMaxDepthExceeded
  {
    hide *;
    var c := b[..k] + t;
    var i, p, f := DeepStart(c);
    DeepAt(c, i, [], p, f);
    OpenBefore(b, k, t, p);
    BeginsSame(b, k, t);
    OpenFacts(c, i);
    SpaceSame(b, c, k);
    DeepSame(b, c, k, i, [], p, f);
    DeepStatus(b, i);
  }

  lemma OpenBefore(b: bytes, k: nat, t: bytes, p: nat)
    requires k <= |b| && AllClose(t) && p < |b[..k] + t|
    ensures IsOpen((b[..k] + t)[p]) ==> p < k
  {
    if p >= k {
      assert (b[..k] + t)[p] == t[p - k];
    }
  }

  lemma BeginsSame(b: bytes, k: nat, t: bytes)
    requires k <= |b|
    ensures Same(b, b[..k] + t, k)
  {
  }

  /** The depth error is reported if and only if some beginning of the buffer is a document deeper than MAX_DEPTH
      without some of the close brackets it ends with, whatever the rest of the buffer is. */
  lemma DeepExact(b: bytes)
    ensures ValidateStatus(b) == JSONMaxDepthExceeded
            <==> exists k: nat, t, d ::
                  k <= |b| && AllClose(t) && DocumentOk(d) && DocumentDepth(d) > MAX_DEPTH
                  && DocumentText(d) == b[..k] + t
  {
    hide ValidateStatus, AllClose, DocumentOk, DocumentDepth, DocumentText;
    if ValidateStatus(b) == JSONMaxDepthExceeded {
      var k, t, d := DeepBegins(b);
    }
    forall k: nat, t, d | k <= |b| && AllClose(t) && DocumentOk(d) && DocumentDepth(d) > MAX_DEPTH
    && DocumentText(d) == b[..k] + t
      ensures ValidateStatus(b) == JSONMaxDepthExceeded
    {
      DocumentAccepted(d);
      BeginsDeep(b, k, t);
    }
  }

  // ---- every status by the grammar ----

  ghost predicate IsDocument(b: bytes) {
    exists d :: DocumentOk(d) && DocumentText(d) == b && DocumentDepth(d) <= MAX_DEPTH
  }

  /** Some of the close brackets that end a document are missing. */
  ghost predicate IsCut(b: bytes) {
    exists d, t :: DocumentOk(d) && DocumentDepth(d) <= MAX_DEPTH && AllClose(t) && DocumentText(d) == b + t
  }

  ghost predicate IsTooDeep(b: bytes) {
    exists k: nat, t, d ::
      k <= |b| && AllClose(t) && DocumentOk(d) && DocumentDepth(d) > MAX_DEPTH && DocumentText(d) == b[..k] + t
  }

  lemma OnlySpace(b: bytes)
    ensures SpaceEnd(b, 0) == |b| <==> AllSpace(b)
    ensures SpaceEnd(b, 0) <= |b|
  {
    hide SpaceEnd;
    assert b[0..|b|] == b;
    SpaceFound(b, 0);
    if AllSpace(b) {
      SpaceSkipped(b, 0, b);
    }
  }

  lemma SpaceIsPartial(b: bytes)
    requires |b| > 0 && SpaceEnd(b, 0) == |b|
    ensures ValidateStatus(b) == JSONPartial
  {
    hide Brackets, SpaceEnd;
    NotAScalar(b, |b|);
    BracketsOver(b, |b|, []);
  }

  lemma StatusAmong(b: bytes)
    ensures ValidateStatus(b) in {JSONBadParameter, JSONSuccess, JSONPartial, JSONMaxDepthExceeded, JSONIllegalDocument}
    ensures ValidateStatus(b) == JSONBadParameter <==> b == []
  {
    hide Brackets, ScalarEnd, SpaceEnd;
  }

  /** The status of every buffer, said by the grammar alone. */
  lemma StatusExact(b: bytes)
    ensures ValidateStatus(b) ==
            if b == [] then JSONBadParameter
            else if AllSpace(b) then JSONPartial
            else if IsDocument(b) then JSONSuccess
            else if IsCut(b) then JSONPartial
            else if IsTooDeep(b) then JSONMaxDepthExceeded
            else JSONIllegalDocument
  {
    OnlySpace(b);
    StatusAmong(b);
    ValidatorExact(b);
    PartialIsCutDocument(b);
    DeepExact(b);
    hide ValidateStatus, SpaceEnd, AllClose, AllSpace, DocumentOk, DocumentDepth, DocumentText;
    if b != [] && SpaceEnd(b, 0) == |b| {
      SpaceIsPartial(b);
    }
  }
}
