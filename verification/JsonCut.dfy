/** The partial buffers, by the documents they are cut from: a buffer is partial, with something in it,
    exactly if some close brackets behind it make it a document. */
module JsonCut {
  import opened Bytes
  import opened JsonScan
  import opened JsonText
  import opened JsonGrammar
  import opened JsonAccept
  import opened JsonExact
  import opened JsonPartial

  /** c is b with close brackets behind it. */
  predicate Cuts(c: bytes, b: bytes) {
    |b| < |c| && b == c[..|b|] && forall k :: |b| <= k < |c| ==> IsClose(c[k])
  }

  lemma CutByte(c: bytes, b: bytes, k: nat)
    requires Cuts(c, b) && k < |c|
    ensures k < |b| ==> c[k] == b[k]
    ensures k >= |b| ==> IsClose(c[k])
  {
    assert k < |b| ==> c[k] == c[..|b|][k];
  }

  lemma CutAt(c: bytes, b: bytes, i: nat, t: bytes)
    requires Cuts(c, b) && At(c, i, t) && i + |t| <= |b|
    ensures At(b, i, t)
  {
    assert b[i..i + |t|] == c[..|b|][i..i + |t|] == c[i..i + |t|];
  }

  // ---- what scalars, members and white space end with ----

  predicate EndsOpen(t: bytes) {
    t != [] ==> !IsClose(t[|t| - 1])
  }

  lemma EndsLater(s: bytes, t: bytes)
    requires EndsOpen(t) && (t != [] || EndsOpen(s))
    ensures EndsOpen(s + t)
  {
    assert t == [] ==> s + t == s;
  }

  lemma SpaceEndsOpen(w: bytes)
    requires AllSpace(w)
    ensures EndsOpen(w)
  {
    assert w != [] ==> IsSpace(w[|w| - 1]);
  }

  lemma DigitsEndOpen(d: bytes)
    requires AllDigits(d)
    ensures EndsOpen(d)
  {
    assert d != [] ==> IsDigit(d[|d| - 1]);
  }

  lemma {:induction false} PiecesEndOpen(pieces: seq<Piece>)
    requires PiecesValid(pieces, false)
    ensures EndsOpen(PiecesText(pieces))
    decreases |pieces|
  {
    hide PieceText, PieceValid;
    if pieces != [] {
      PiecesEndOpen(pieces[1..]);
      EndsLater(PieceText(pieces[0]), PiecesText(pieces[1..]));
    }
  }

  lemma NumberEndsOpen(n: NumberTree)
    requires NumberValid(n)
    ensures EndsOpen(NumberText(n))
  {
    var x, d := n.exponent, DecimalsText(n.decimals);
    hide EndsOpen;
    DigitsEndOpen(n.digits);
    DigitsEndOpen(n.decimals);
    if x.Exponent? {
      DigitsEndOpen(x.digits);
      EndsLater(x.sign, x.digits);
      EndsLater([x.e], x.sign + x.digits);
    }
    NothingEndsOpen();
    EndsLater([DOT], n.decimals);
    EndsLater(d, ExponentText(x));
    EndsLater(n.digits, d + ExponentText(x));
    EndsLater(if n.negative then [MINUS] else [], n.digits + (d + ExponentText(x)));
  }

  lemma NothingEndsOpen()
    ensures EndsOpen([]) && EndsOpen([DOT]) && EndsOpen([COMMA]) && EndsOpen([COLON])
  {
  }

  lemma StringEndsOpen(t: bytes)
    requires IsStringText(t, false)
    ensures EndsOpen(t) && t != []
  {
    var pieces :| StringOf(pieces, false, t);
    PiecesEndOpen(pieces);
    EndsLater([QUOTE], PiecesText(pieces));
  }

  lemma ScalarEndsOpen(t: bytes)
    requires IsScalarText(t, false)
    ensures EndsOpen(t)
  {
    if IsStringText(t, false) {
      StringEndsOpen(t);
    } else if !IsLiteralText(t) {
      var n :| NumberValid(n) && t == NumberText(n);
      NumberEndsOpen(n);
    }
  }

  lemma ItemEndsOpen(open: byte, it: Item)
    requires ItemOk(open, it)
    ensures EndsOpen(ItemText(it)) && ItemText(it) != []
  {
    hide EndsOpen, IsScalarText, IsStringText;
    ScalarEndsOpen(it.v);
    ScalarFilled(it.v);
    if it.Member? {
      EndsLater(it.w2, it.v);
      EndsLater([COLON], it.w2 + it.v);
      EndsLater(it.w1, [COLON] + (it.w2 + it.v));
      EndsLater(it.key, it.w1 + ([COLON] + (it.w2 + it.v)));
    }
  }

  lemma ScalarFilled(t: bytes)
    requires IsScalarText(t, false)
    ensures t != []
  {
    if IsStringText(t, false) {
      StringEndsOpen(t);
    } else if !IsLiteralText(t) {
      var n :| NumberValid(n) && t == NumberText(n);
      assert |NumberText(n)| >= |n.digits|;
    }
  }

  lemma {:induction false} SegmentEndsOpen(open: byte, seg: Segment)
    requires SegmentOk(open, seg)
    ensures EndsOpen(SegmentText(seg))
    decreases seg
  {
    hide EndsOpen, ItemOk, ItemText, IsStringText, AllSpace;
    NothingEndsOpen();
    match seg
    case Empty =>
    case Last(it, w) =>
      ItemEndsOpen(open, it);
      SpaceEndsOpen(w);
      EndsLater(ItemText(it), w);
    case More(it, w1, w2, rest) =>
      var r := SegmentText(rest);
      SegmentEndsOpen(open, rest);
      SpaceEndsOpen(w2);
      EndsLater(w2, r);
      EndsLater([COMMA], w2 + r);
      EndsLater(w1, [COMMA] + (w2 + r));
      EndsLater(ItemText(it), w1 + ([COMMA] + (w2 + r)));
    case BareKey(key, w1, w2) =>
      SpaceEndsOpen(w2);
      EndsLater([COLON], w2);
      EndsLater(w1, [COLON] + w2);
      EndsLater(key, w1 + ([COLON] + w2));
  }

  /** Text that does not end in a close bracket ends before the brackets that are cut off. */
  lemma EndsBefore(c: bytes, b: bytes, i: nat, t: bytes)
    requires Cuts(c, b) && i <= |b| && At(c, i, t) && EndsOpen(t)
    ensures i + |t| <= |b|
  {
    if t != [] {
      AtByte(c, i, t, |t| - 1);
      CutByte(c, b, i + |t| - 1);
    }
  }

  // ---- the scans stop in the cut buffer where they stop in the whole ----

  /** A segment that fills the rest of the buffer is read to its end. */
  lemma {:induction false} SegmentFills(b: bytes, i: nat, open: byte, seg: Segment)
    requires IsOpen(open) && SegmentOk(open, seg) && At(b, i, SegmentText(seg)) && i + |SegmentText(seg)| == |b|
    requires !NeedsNest(seg)
    ensures ModeEnd(b, i, open) == |b|
    ensures seg != Empty ==> i < |b| && ScalarStart(b[i])
    decreases seg
  {
    hide ItemText, ItemOk, At, ScalarStart, ModeEnd;
    match seg
    case Empty => NothingLeft(b, i, open);
    case Last(it, w) => LastSkipped(b, i, open, it, w);
    case More(it, w1, w2, rest) =>
      var j, k := JsonAccept.MorePieces(b, i, ItemText(it), w1, w2, SegmentText(rest));
      SegmentFills(b, k, open, rest);
      MoreSkipped(b, i, open, it, w1, w2, j, k);
  }

  lemma NothingLeft(b: bytes, i: nat, open: byte)
    requires i == |b|
    ensures ModeEnd(b, i, open) == i
  {
  }

  predicate AtBracket(c: bytes, k: nat) {
    k < |c| && (IsOpen(c[k]) || IsClose(c[k]))
  }

  lemma ModeCut(c: bytes, b: bytes, i: nat, open: byte, seg: Segment, k: nat)
    requires Cuts(c, b) && IsOpen(open) && SegmentOk(open, seg) && At(c, i, SegmentText(seg))
             && k == i + |SegmentText(seg)| <= |b|
    requires AtBracket(c, k) && Followed(c, k, NeedsNest(seg))
    ensures ModeEnd(b, i, open) == k && (i < |b| ==> !IsSpace(b[i]))
  {
    hide SegmentText, SegmentOk, ModeEnd, At, NeedsNest;
    CutAt(c, b, i, SegmentText(seg));
    CutByte(c, b, k);
    if k == |b| {
      SegmentFills(b, i, open, seg);
      EmptyText();
    } else {
      SegmentSkipped(b, i, open, seg);
      SegmentStart(b, i, seg);
    }
  }

  lemma ScalarsCut(c: bytes, b: bytes, i: nat, open: byte)
    requires Cuts(c, b) && i <= |b| && IsOpen(open) && AtBracket(c, ScalarsEnd(c, i, open))
    ensures ScalarsEnd(b, i, open) == ScalarsEnd(c, i, open) <= |b|
  {
    hide *;
    CutLength(c, b);
    var w, seg := ScalarsEndFound(c, i, open);
    SpaceEndsOpen(w);
    EndsBefore(c, b, i, w);
    PiecesCut(c, b, i, open, w, seg);
  }

  lemma PiecesCut(c: bytes, b: bytes, i: nat, open: byte, w: bytes, seg: Segment)
    requires Cuts(c, b) && IsOpen(open) && AllSpace(w) && SegmentOk(open, seg) && i + |w| <= |b|
    requires At(c, i, w) && At(c, i + |w|, SegmentText(seg))
    requires var k := i + |w| + |SegmentText(seg)|; AtBracket(c, k) && Followed(c, k, NeedsNest(seg))
    ensures ScalarsEnd(b, i, open) == i + |w| + |SegmentText(seg)| <= |b|
  {
    hide *;
    var j := i + |w|;
    SegmentEndsOpen(open, seg);
    EndsBefore(c, b, j, SegmentText(seg));
    CutAt(c, b, i, w);
    ModeCut(c, b, j, open, seg, j + |SegmentText(seg)|);
    SpaceSkipped(b, i, w);
    ScalarsAfterSpace(b, i, j, open);
  }

  lemma CutLength(c: bytes, b: bytes)
    requires Cuts(c, b)
    ensures |b| < |c|
  {
  }

  lemma CommaCut(c: bytes, b: bytes, i: nat)
    requires Cuts(c, b) && i <= |b| && (CommaEnd(c, i).0 || AtBracket(c, CommaEnd(c, i).1))
    ensures CommaEnd(b, i) == CommaEnd(c, i) && CommaEnd(c, i).1 <= |b|
  {
    var k := CommaEnd(c, i).1;
    hide CommaEnd, At, AllSpace;
    if CommaEnd(c, i).0 {
      var w1, w2 := CommaFound(c, i);
      var t := w1 + ([COMMA] + w2);
      CutByte(c, b, k);
      CutAt(c, b, i, t);
      CommaSkipped(b, i, w1, w2);
    } else {
      var w := NoCommaFound(c, i);
      SpaceEndsOpen(w);
      EndsBefore(c, b, i, w);
      CutByte(c, b, k);
      CutAt(c, b, i, w);
      NoCommaSkipped(b, i, w);
    }
  }

  lemma ResumeCut(c: bytes, b: bytes, i: nat, stack: bytes)
    requires Cuts(c, b) && i <= |b| && |stack| > 0 && IsOpen(Top(stack)) && AtBracket(c, ResumeEnd(c, i, stack))
    ensures ResumeEnd(b, i, stack) == ResumeEnd(c, i, stack) <= |b|
  {
    CommaThenScalars(b, i, stack);
    CommaThenScalars(c, i, stack);
    hide *;
    CommaCut(c, b, i);
    if CommaEnd(c, i).0 {
      ScalarsCut(c, b, CommaEnd(c, i).1, Top(stack));
    }
  }

  // ---- the bracket loop ----

  lemma SuccessAtBracket(c: bytes, i: nat, stack: bytes)
    requires Brackets(c, i, stack).0 == JSONSuccess && |stack| <= MAX_DEPTH
    ensures AtBracket(c, i)
    ensures IsOpen(c[i]) ==>
              |stack| < MAX_DEPTH && Brackets(c, i, stack) == Brackets(c, ScalarsEnd(c, i + 1, c[i]), stack + [c[i]])
    ensures !IsOpen(c[i]) ==> IsClose(c[i]) && |stack| > 0 && Matches(Top(stack), c[i])
    ensures !IsOpen(c[i]) && |stack| == 1 ==> Brackets(c, i, stack) == (JSONSuccess, i + 1)
  {
    hide ScalarsEnd, Matches, Top, ResumeEnd;
    if |stack| == 1 { assert stack[..0] == []; }
  }

  lemma OnePartial(b: bytes, i: nat, stack: bytes)
    requires i < |b| && IsOpen(b[i]) && |stack| < MAX_DEPTH
    ensures Brackets(b, i, stack) == Brackets(b, ScalarsEnd(b, i + 1, b[i]), stack + [b[i]])
  {
    hide ScalarsEnd;
  }

  lemma NoneLeft(b: bytes, i: nat, stack: bytes)
    requires i >= |b|
    ensures Brackets(b, i, stack).0 == JSONPartial
  {
  }

  /** A run that ends with the last bracket of the whole is partial in the cut buffer. */
  lemma {:induction false} BracketsCut(c: bytes, b: bytes, i: nat, stack: bytes)
    requires Cuts(c, b) && i <= |b| && AllOpen(stack) && |stack| <= MAX_DEPTH
             && Brackets(c, i, stack) == (JSONSuccess, |c|)
    ensures Brackets(b, i, stack).0 == JSONPartial
    decreases |b| - i
  {
    hide *;
    CutLength(c, b);
    if i == |b| {
      NoneLeft(b, i, stack);
    } else {
      SuccessAtBracket(c, i, stack);
      CutByte(c, b, i);
      OpenPrefix(stack, b[i]);
      if IsOpen(b[i]) {
        var k, inside := ScalarsEnd(c, i + 1, c[i]), stack + [b[i]];
        SuccessAtBracket(c, k, inside);
        ScalarsCut(c, b, i + 1, b[i]);
        OnePartial(b, i, stack);
        BracketsCut(c, b, k, inside);
      } else {
        ClosedCut(c, b, i, stack);
      }
    }
  }

  lemma {:induction false} ClosedCut(c: bytes, b: bytes, i: nat, stack: bytes)
    requires Cuts(c, b) && i < |b| && AllOpen(stack) && 1 < |stack| <= MAX_DEPTH
             && Brackets(c, i, stack) == (JSONSuccess, |c|)
    requires IsClose(c[i]) && b[i] == c[i] && Matches(Top(stack), c[i]) && AllOpen(stack[..|stack| - 1])
    ensures Brackets(b, i, stack).0 == JSONPartial
    decreases |b| - i, 0
  {
    var rest := stack[..|stack| - 1];
    hide *;
    BracketsNested(c, i, stack, rest);
    BracketsNested(b, i, stack, rest);
    var k := ResumeEnd(c, i + 1, rest);
    SuccessAtBracket(c, k, rest);
    OpenPrefix(rest, 0);
    ResumeCut(c, b, i + 1, rest);
    BracketsCut(c, b, k, rest);
  }

  // ---- whole buffers ----

  predicate AllClose(t: bytes) {
    t != [] && forall k :: 0 <= k < |t| ==> IsClose(t[k])
  }

  lemma CutsOf(b: bytes, t: bytes)
    requires AllClose(t)
    ensures Cuts(b + t, b)
  {
    assert (b + t)[..|b|] == b;
  }

  /** A document that ends with a close bracket is a collection, without white space behind it. */
  lemma EndsInCollection(c: bytes, b: bytes) returns (i: nat)
    requires Cuts(c, b) && ValidateStatus(c) == JSONSuccess
    ensures i == SpaceEnd(c, 0) && Brackets(c, i, []) == (JSONSuccess, |c|)
  {
    var j;
    hide *;
    i, j := ValidateParts(c);
    SpaceFound(c, j);
    AtSlice(c, j, |c|);
    SpaceEndsOpen(c[j..|c|]);
    NothingEndsCut(c, b, j, c[j..|c|]);
    if ScalarEnd(c, i) == Some(j) {
      ScalarFound(c, i);
      AtSlice(c, i, j);
      ScalarEndsOpen(c[i..j]);
      ScalarFilled(c[i..j]);
      NothingEndsCut(c, b, i, c[i..j]);
    }
  }

  /** Only the empty text ends a buffer of the kind of c without ending in a close bracket. */
  lemma NothingEndsCut(c: bytes, b: bytes, k: nat, t: bytes)
    requires Cuts(c, b) && At(c, k, t) && EndsOpen(t) && k + |t| == |c|
    ensures t == []
  {
    LastCloses(c, b);
    hide Cuts, At;
    if t != [] {
      LastOf(c, k, t);
    }
  }

  lemma LastCloses(c: bytes, b: bytes)
    requires Cuts(c, b)
    ensures |c| > 0 && IsClose(c[|c| - 1])
  {
  }

  lemma LastOf(c: bytes, k: nat, t: bytes)
    requires At(c, k, t) && t != [] && k + |t| == |c|
    ensures c[|c| - 1] == t[|t| - 1]
  {
    AtByte(c, k, t, |t| - 1);
  }

  lemma SpaceCut(c: bytes, b: bytes)
    requires Cuts(c, b) && AtBracket(c, SpaceEnd(c, 0)) && IsOpen(c[SpaceEnd(c, 0)])
    ensures SpaceEnd(b, 0) == SpaceEnd(c, 0) < |b|
  {
    var i := SpaceEnd(c, 0);
    hide At, SpaceEnd;
    SpaceFound(c, 0);
    CutByte(c, b, i);
    AtSlice(c, 0, i);
    CutAt(c, b, 0, c[0..i]);
    SpaceSkipped(b, 0, c[0..i]);
  }

  lemma PartialFrom(b: bytes, i: nat)
    requires i == SpaceEnd(b, 0) < |b| && IsOpen(b[i]) && Brackets(b, i, []).0 == JSONPartial
    ensures ValidateStatus(b) == JSONPartial
  {
    hide Brackets;
    NotAScalar(b, i);
  }

  /** What close brackets complete is partial. */
  lemma CutIsPartial(b: bytes, t: bytes)
    requires AllClose(t) && ValidateStatus(b + t) == JSONSuccess
    ensures ValidateStatus(b) == JSONPartial && SpaceEnd(b, 0) < |b|
  {
    hide *;
    var c := b + t;
    CutsOf(b, t);
    var i := EndsInCollection(c, b);
    EmptyOpen();
    SuccessAtBracket(c, i, []);
    SpaceCut(c, b);
    CutByte(c, b, i);
    BracketsCut(c, b, i, []);
    PartialFrom(b, i);
  }

  lemma ClosesClose(stack: bytes)
    requires AllOpen(stack) && |stack| > 0
    ensures AllClose(CloseAll(stack))
    decreases |stack|
  {
    var rest := stack[..|stack| - 1];
    if rest != [] {
      ClosesClose(rest);
    } else {
      NoCloses();
    }
    hide AllOpen;
  }

  lemma PendingBrackets(b: bytes)
    requires ValidateStatus(b) == JSONPartial && SpaceEnd(b, 0) < |b|
    ensures AllOpen(OpenBrackets(b)) && |OpenBrackets(b)| > 0
  {
    hide Brackets, Pending, SpaceEnd, ValidateStatus, AllOpen;
    PartialStart(b);
    PartialHasOpen(b, SpaceEnd(b, 0));
  }

  /** A buffer is reported as partial, and is not only white space, if and only if some close brackets behind
      it make it valid: partial buffers are what is left of documents cut within their last brackets. */
  lemma PartialExact(b: bytes)
    ensures ValidateStatus(b) == JSONPartial && SpaceEnd(b, 0) < |b|
            <==> exists t :: AllClose(t) && ValidateStatus(b + t) == JSONSuccess
  {
    hide ValidateStatus, SpaceEnd, AllClose, CloseAll, OpenBrackets, AllOpen;
    if ValidateStatus(b) == JSONPartial && SpaceEnd(b, 0) < |b| {
      PendingBrackets(b);
      ClosesClose(OpenBrackets(b));
      PartialCompletes(b);
      assert AllClose(CloseAll(OpenBrackets(b)));
    }
    forall t | AllClose(t) && ValidateStatus(b + t) == JSONSuccess
      ensures ValidateStatus(b) == JSONPartial && SpaceEnd(b, 0) < |b|
    {
      CutIsPartial(b, t);
    }
  }

  /** By the grammar: the partial buffers are the documents of depth at most MAX_DEPTH without some of the close
      brackets they end with. */
  lemma PartialIsCutDocument(b: bytes)
    ensures ValidateStatus(b) == JSONPartial && SpaceEnd(b, 0) < |b|
            <==> exists d, t ::
                  DocumentOk(d) && DocumentDepth(d) <= MAX_DEPTH && AllClose(t) && DocumentText(d) == b + t
  {
    hide ValidateStatus, SpaceEnd, AllClose, DocumentOk, DocumentDepth, DocumentText;
    PartialExact(b);
    if ValidateStatus(b) == JSONPartial && SpaceEnd(b, 0) < |b| {
      var t :| AllClose(t) && ValidateStatus(b + t) == JSONSuccess;
      var d := AcceptedIsDocument(b + t);
    }
    forall d, t | DocumentOk(d) && DocumentDepth(d) <= MAX_DEPTH && AllClose(t) && DocumentText(d) == b + t
      ensures ValidateStatus(b + t) == JSONSuccess
    {
      ValidatorExact(b + t);
    }
  }
}
