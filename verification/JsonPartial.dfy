/** A buffer reported as partial is completed by closing what it leaves open. */
module JsonPartial {
  import opened Bytes
  import opened JsonScan
  import opened JsonGrammar
  import opened JsonAccept
  import opened JsonExact

  /** The brackets still open when the loop reaches the end of the buffer. */
  function Pending(b: bytes, i: nat, stack: bytes): bytes
    decreases |b| - i
  {
    if i >= |b| then stack
    else if IsOpen(b[i]) then Pending(b, ScalarsEnd(b, i + 1, b[i]), stack + [b[i]])
    else if |stack| > 1 then
      var rest := stack[..|stack| - 1];
      Pending(b, ResumeEnd(b, i + 1, rest), rest)
    else []
  }

  /** The close brackets of a stack, innermost first. */
  function CloseAll(stack: bytes): bytes {
    if stack == [] then [] else [CloseOf(Top(stack))] + CloseAll(stack[..|stack| - 1])
  }

  predicate AllOpen(stack: bytes) {
    forall k :: 0 <= k < |stack| ==> IsOpen(stack[k])
  }

  predicate Extends(c: bytes, b: bytes) {
    |b| < |c| && b == c[..|b|] && IsClose(c[|b|])
  }

  lemma AtExtended(c: bytes, b: bytes, i: nat, t: bytes)
    requires Extends(c, b) && At(b, i, t)
    ensures At(c, i, t)
  {
    assert c[i..i + |t|] == c[..|b|][i..i + |t|];
  }

  /** What the bracket loop may see next without ruling the buffer out. */
  predicate Bracketed(b: bytes, i: nat) {
    i >= |b| || IsOpen(b[i]) || IsClose(b[i])
  }

  lemma PartialNext(b: bytes, i: nat, stack: bytes)
    requires Brackets(b, i, stack).0 == JSONPartial && |stack| <= MAX_DEPTH
    ensures Bracketed(b, i)
    ensures i < |b| && IsOpen(b[i]) ==>
              |stack| < MAX_DEPTH && Brackets(b, ScalarsEnd(b, i + 1, b[i]), stack + [b[i]]).0 == JSONPartial
    ensures i < |b| && !IsOpen(b[i]) ==>
              |stack| > 0 && Matches(Top(stack), b[i]) && AfterClose(b, i + 1, stack[..|stack| - 1]).0 == JSONPartial
  {
    hide ScalarsEnd, AfterClose, Top, Matches;
  }

  lemma PartialAfterClose(b: bytes, i: nat, stack: bytes)
    requires i <= |b| && AfterClose(b, i, stack).0 == JSONPartial
    ensures |stack| > 0 && Brackets(b, ResumeEnd(b, i, stack), stack).0 == JSONPartial
  {
    hide Brackets, ResumeEnd;
  }

  lemma FollowsExtended(c: bytes, b: bytes, i: nat, needsNest: bool)
    requires Extends(c, b) && i <= |b| && Bracketed(b, i) && Followed(b, i, needsNest)
    ensures Follows(c, i, needsNest)
  {
    assert i < |b| ==> c[i] == c[..|b|][i];
  }

  lemma ScalarsExtended(c: bytes, b: bytes, i: nat, open: byte)
    requires Extends(c, b) && i <= |b| && IsOpen(open) && Bracketed(b, ScalarsEnd(b, i, open))
    ensures ScalarsEnd(c, i, open) == ScalarsEnd(b, i, open)
  {
    var k := ScalarsEnd(b, i, open);
    hide *;
    var w, seg := ScalarsEndFound(b, i, open);
    AtExtended(c, b, i, w);
    AtExtended(c, b, i + |w|, SegmentText(seg));
    FollowsExtended(c, b, k, NeedsNest(seg));
    SegmentSkipped(c, i + |w|, open, seg);
    SegmentStart(c, i + |w|, seg);
    SpaceSkipped(c, i, w);
    ScalarsAfterSpace(c, i, i + |w|, open);
  }

  lemma CommaExtended(c: bytes, b: bytes, i: nat)
    requires Extends(c, b) && i <= |b|
    requires CommaEnd(b, i).0 || Bracketed(b, CommaEnd(b, i).1)
    ensures CommaEnd(c, i) == CommaEnd(b, i)
  {
    if CommaEnd(b, i).0 {
      var w1, w2 := CommaFound(b, i);
      AtExtended(c, b, i, w1 + ([COMMA] + w2));
      assert c[CommaEnd(b, i).1] == c[..|b|][CommaEnd(b, i).1];
      hide CommaEnd, At, AllSpace;
      CommaSkipped(c, i, w1, w2);
    } else {
      var w := NoCommaFound(b, i);
      AtExtended(c, b, i, w);
      var k := i + |w|;
      assert k < |b| ==> c[k] == c[..|b|][k];
      hide CommaEnd, At, AllSpace;
      NoCommaSkipped(c, i, w);
    }
  }

  lemma CommaThenScalars(b: bytes, i: nat, stack: bytes)
    requires |stack| > 0
    ensures CommaEnd(b, i).0 ==> ResumeEnd(b, i, stack) == ScalarsEnd(b, CommaEnd(b, i).1, Top(stack))
    ensures !CommaEnd(b, i).0 ==> ResumeEnd(b, i, stack) == CommaEnd(b, i).1
  {
  }

  lemma ResumeExtended(c: bytes, b: bytes, i: nat, stack: bytes)
    requires Extends(c, b) && i <= |b| && |stack| > 0 && IsOpen(Top(stack)) && Bracketed(b, ResumeEnd(b, i, stack))
    ensures ResumeEnd(c, i, stack) == ResumeEnd(b, i, stack)
  {
    CommaThenScalars(b, i, stack);
    CommaThenScalars(c, i, stack);
    var k := CommaEnd(b, i).1;
    assert k <= |b|;
    hide *;
    CommaExtended(c, b, i);
    if CommaEnd(b, i).0 {
      ScalarsExtended(c, b, k, Top(stack));
    }
  }

  lemma PendingOpen(b: bytes, i: nat, stack: bytes)
    requires i < |b| && IsOpen(b[i])
    ensures Pending(b, i, stack) == Pending(b, ScalarsEnd(b, i + 1, b[i]), stack + [b[i]])
  {
  }

  lemma PendingClose(b: bytes, i: nat, stack: bytes)
    requires i < |b| && IsClose(b[i]) && |stack| > 1
    ensures var rest := stack[..|stack| - 1]; Pending(b, i, stack) == Pending(b, ResumeEnd(b, i + 1, rest), rest)
  {
  }

  lemma BracketsMatched(b: bytes, i: nat, stack: bytes)
    requires i < |b| && IsClose(b[i]) && |stack| > 1 && Matches(Top(stack), b[i])
    ensures var rest := stack[..|stack| - 1]; Brackets(b, i, stack) == Brackets(b, ResumeEnd(b, i + 1, rest), rest)
  {
  }

  lemma SameByte(c: bytes, b: bytes, i: nat)
    requires Extends(c, b) && i < |b|
    ensures c[i] == b[i] && |b| < |c|
  {
    assert c[i] == c[..|b|][i];
  }

  lemma OpenPrefix(stack: bytes, open: byte)
    requires AllOpen(stack)
    ensures IsOpen(open) ==> AllOpen(stack + [open])
    ensures |stack| > 0 ==> AllOpen(stack[..|stack| - 1]) && IsOpen(Top(stack))
  {
  }

  lemma BracketKind(b: bytes, i: nat)
    requires Bracketed(b, i) && i < |b| && !IsOpen(b[i])
    ensures IsClose(b[i])
  {
  }

  lemma PendingAtEnd(b: bytes, i: nat, stack: bytes)
    requires i >= |b|
    ensures Pending(b, i, stack) == stack
  {
  }

  /** The extended buffer is scanned as before up to the old end, with the pending stack. */
  lemma {:induction false} PartialExtended(c: bytes, b: bytes, i: nat, stack: bytes)
    requires Extends(c, b) && i <= |b| && AllOpen(stack) && |stack| <= MAX_DEPTH
    requires Brackets(b, i, stack).0 == JSONPartial && (i < |b| || |stack| > 0)
    ensures Brackets(c, i, stack) == Brackets(c, |b|, Pending(b, i, stack))
    ensures AllOpen(Pending(b, i, stack)) && |Pending(b, i, stack)| > 0
    decreases |b| - i
  {
    hide *;
    if i == |b| {
      PendingAtEnd(b, i, stack);
    } else {
      PartialNext(b, i, stack);
      SameByte(c, b, i);
      if IsOpen(b[i]) {
        var k, inside := ScalarsEnd(b, i + 1, b[i]), stack + [b[i]];
        OpenPrefix(stack, b[i]);
        PendingOpen(b, i, stack);
        PartialNext(b, k, inside);
        ScalarsExtended(c, b, i + 1, b[i]);
        BracketsOpen(c, i, stack);
        PartialExtended(c, b, k, inside);
      } else {
        PartialClosed(c, b, i, stack);
      }
    }
  }

  lemma {:induction false} PartialClosed(c: bytes, b: bytes, i: nat, stack: bytes)
    requires Extends(c, b) && i < |b| && AllOpen(stack) && 0 < |stack| <= MAX_DEPTH && i < |c| && c[i] == b[i]
    requires Bracketed(b, i) && !IsOpen(b[i]) && Matches(Top(stack), b[i])
    requires AfterClose(b, i + 1, stack[..|stack| - 1]).0 == JSONPartial
    ensures Brackets(c, i, stack) == Brackets(c, |b|, Pending(b, i, stack))
    ensures AllOpen(Pending(b, i, stack)) && |Pending(b, i, stack)| > 0
    decreases |b| - i, 0
  {
    hide *;
    var rest := stack[..|stack| - 1];
    BracketKind(b, i);
    PartialAfterClose(b, i + 1, rest);
    var k := ResumeEnd(b, i + 1, rest);
    OpenPrefix(stack, b[i]);
    OpenPrefix(rest, b[i]);
    PartialNext(b, k, rest);
    PendingClose(b, i, stack);
    BracketsMatched(c, i, stack);
    ResumeExtended(c, b, i + 1, rest);
    PartialExtended(c, b, k, rest);
  }

  lemma ClosesNext(b: bytes, i: nat)
    requires i < |b| && IsClose(b[i])
    ensures CommaEnd(b, i) == (false, i)
  {
  }

  lemma BracketsLast(b: bytes, i: nat, stack: bytes)
    requires i < |b| && |stack| == 1 && IsOpen(Top(stack)) && b[i] == CloseOf(Top(stack))
    ensures Brackets(b, i, stack) == (JSONSuccess, i + 1)
  {
  }

  lemma CloseAllStep(c: bytes, i: nat, stack: bytes)
    requires stack != [] && At(c, i, CloseAll(stack))
    ensures i < |c| && c[i] == CloseOf(Top(stack)) && At(c, i + 1, CloseAll(stack[..|stack| - 1]))
    ensures |CloseAll(stack)| == 1 + |CloseAll(stack[..|stack| - 1])|
  {
    AtConcat(c, i, [CloseOf(Top(stack))], CloseAll(stack[..|stack| - 1]));
    AtOne(c, i, CloseOf(Top(stack)));
  }

  lemma ClosesMatch(open: byte)
    requires IsOpen(open)
    ensures IsClose(CloseOf(open)) && Matches(open, CloseOf(open))
  {
  }

  /** Closing every open bracket, innermost first, ends the document. */
  lemma {:induction false} ClosesRun(c: bytes, i: nat, stack: bytes)
    requires |stack| > 0 && AllOpen(stack) && At(c, i, CloseAll(stack)) && i + |CloseAll(stack)| == |c|
    ensures Brackets(c, i, stack) == (JSONSuccess, |c|)
    decreases |stack|
  {
    hide *;
    var rest := stack[..|stack| - 1];
    CloseAllStep(c, i, stack);
    OpenPrefix(stack, Top(stack));
    ClosesMatch(Top(stack));
    if |stack| == 1 {
      NoCloses();
      BracketsLast(c, i, stack);
    } else {
      OpenPrefix(rest, Top(stack));
      CloseAllStep(c, i + 1, rest);
      ClosesMatch(Top(rest));
      BracketsMatched(c, i, stack);
      ClosesNext(c, i + 1);
      CommaThenScalars(c, i + 1, rest);
      ClosesRun(c, i + 1, rest);
    }
  }

  lemma NoCloses()
    ensures CloseAll([]) == []
  {
  }

  /** The brackets a partial buffer leaves open. */
  function OpenBrackets(b: bytes): bytes {
    Pending(b, SpaceEnd(b, 0), [])
  }

  lemma PartialStart(b: bytes)
    requires ValidateStatus(b) == JSONPartial && SpaceEnd(b, 0) < |b|
    ensures Brackets(b, SpaceEnd(b, 0), []).0 == JSONPartial && IsOpen(b[SpaceEnd(b, 0)])
  {
    var i := SpaceEnd(b, 0);
    hide ScalarEnd, Brackets;
    PartialNext(b, i, []);
  }

  lemma ValidFromCollection(c: bytes, i: nat)
    requires |c| > 0 && SpaceEnd(c, 0) == i < |c| && IsOpen(c[i])
    requires Brackets(c, i, []) == (JSONSuccess, |c|)
    ensures ValidateStatus(c) == JSONSuccess
  {
    hide Brackets;
    NotAScalar(c, i);
  }

  lemma SpaceExtended(c: bytes, b: bytes)
    requires Extends(c, b) && SpaceEnd(b, 0) < |b|
    ensures SpaceEnd(c, 0) == SpaceEnd(b, 0)
  {
    var i := SpaceEnd(b, 0);
    hide At;
    SpaceFound(b, 0);
    AtSlice(b, 0, i);
    AtExtended(c, b, 0, b[..i]);
    SameByte(c, b, i);
    SpaceSkipped(c, 0, b[..i]);
  }

  lemma ClosedExtends(b: bytes, stack: bytes)
    requires |stack| > 0 && AllOpen(stack)
    ensures Extends(b + CloseAll(stack), b) && At(b + CloseAll(stack), |b|, CloseAll(stack))
  {
    var c := b + CloseAll(stack);
    assert c[..|b|] == b && c[|b|..|c|] == CloseAll(stack);
    assert IsOpen(stack[|stack| - 1]);
  }

  /** A buffer with a non-space byte that is reported as partial becomes a valid document
      when the brackets it leaves open are closed, innermost first. */
  lemma PartialCloses(b: bytes)
    requires ValidateStatus(b) == JSONPartial && SpaceEnd(b, 0) < |b|
    ensures ValidateStatus(b + CloseAll(OpenBrackets(b))) == JSONSuccess
  {
    hide Brackets, Pending, CloseAll, SpaceEnd, ValidateStatus, Extends, At, IsOpen, AllOpen;
    PartialStart(b);
    var i, stack := SpaceEnd(b, 0), OpenBrackets(b);
    EmptyOpen();
    PartialHasOpen(b, i);
    ClosedExtends(b, stack);
    var c := b + CloseAll(stack);
    PartialExtended(c, b, i, []);
    ClosesRun(c, |b|, stack);
    SpaceExtended(c, b);
    SameByte(c, b, i);
    ValidFromCollection(c, i);
  }

  lemma NothingPending(b: bytes)
    requires SpaceEnd(b, 0) >= |b|
    ensures OpenBrackets(b) == []
  {
    hide SpaceEnd;
  }

  /** Closing the brackets that a partial buffer leaves open completes it exactly if it has a byte that is
      not white space: white space alone is also reported as partial, and leaves nothing open. */
  lemma PartialCompletes(b: bytes)
    requires ValidateStatus(b) == JSONPartial
    ensures ValidateStatus(b + CloseAll(OpenBrackets(b))) == JSONSuccess <==> SpaceEnd(b, 0) < |b|
  {
    hide ValidateStatus, SpaceEnd, OpenBrackets, CloseAll;
    if SpaceEnd(b, 0) < |b| {
      PartialCloses(b);
    } else {
      NothingPending(b);
      NoCloses();
      assert b + [] == b;
    }
  }

  lemma EmptyOpen()
    ensures AllOpen([])
  {
  }

  /** The pending stack of a partial run that saw a bracket is not empty. */
  lemma PartialHasOpen(b: bytes, i: nat)
    requires i < |b| && Brackets(b, i, []).0 == JSONPartial
    ensures |Pending(b, i, [])| > 0 && AllOpen(Pending(b, i, []))
  {
    hide Brackets, Pending, Extends, AllOpen;
    var c := b + [RSQUARE];
    SquareExtends(b);
    EmptyOpen();
    PartialExtended(c, b, i, []);
  }

  lemma SquareExtends(b: bytes)
    ensures Extends(b + [RSQUARE], b)
  {
    assert (b + [RSQUARE])[..|b|] == b;
  }
}
