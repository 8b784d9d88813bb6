/** Which documents of the grammar are strict: exactly those whose neighbours are separated by a comma, whose keys
    stand exactly before the values of objects, and whose strings escape no control character by a backslash. */
module JsonStrict {
  import opened Bytes
  import opened JsonScan
  import opened JsonText
  import opened JsonTree
  import G = JsonGrammar

  ghost predicate StrictItem(it: G.Item) {
    IsScalarText(it.v, true) && (it.Member? ==> IsStringText(it.key, true))
  }

  /** A segment in its place: a collection follows in an array behind a comma or nothing, and in an object behind a
      bare key; a segment ends in nothing only if there is no entry at all. */
  ghost predicate StrictSegment(open: byte, seg: G.Segment, nested: bool, first: bool) {
    match seg
    case Empty => if nested then open == LSQUARE else first
    case Last(it, _) => !nested && StrictItem(it)
    case More(it, _, _, rest) => StrictItem(it) && StrictSegment(open, rest, nested, false)
    case BareKey(key, _, _) => nested && IsStringText(key, true)
  }

  ghost predicate StrictColl(c: G.Coll)
    decreases c
  {
    StrictSegment(c.open, c.seg, c.tail.Nest?, true) && StrictTail(c.open, c.tail)
  }

  ghost predicate StrictTail(open: byte, t: G.Tail)
    decreases t
  {
    t.Nest? ==>
      && StrictColl(t.inner) && StrictTail(open, t.tail)
      && (if t.after.NoComma? then t.tail.Close? else StrictSegment(open, t.after.seg, t.tail.Nest?, false))
  }

  ghost predicate StrictDocument(d: G.Document) {
    match d.root
    case Scalar(t) => IsScalarText(t, true)
    case Collection(c) => StrictColl(c)
  }

  // ---- the strict reading of a document ----

  function LabelOf(it: G.Item): Label {
    match it
    case Element(_) => Unnamed
    case Member(key, w1, w2, _) => Named(key, w1, w2)
  }

  function BareLabel(seg: G.Segment): Label {
    if seg.BareKey? then Named(seg.key, seg.w1, seg.w2) else Unnamed
  }

  function ValueOf(c: G.Coll): Value
    decreases c
  {
    Container(c.open, c.w, EntriesOf(c.seg, c.tail))
  }

  function EntriesOf(seg: G.Segment, t: G.Tail): Entries
    decreases t, seg
  {
    match seg
    case Last(it, w) => LastEntry(LabelOf(it), Scalar(it.v), w)
    case More(it, w1, w2, rest) => MoreEntries(LabelOf(it), Scalar(it.v), w1, w2, EntriesOf(rest, t))
    case _ =>
      match t
      case Close => NoEntries
      case Nest(inner, w, after, tail) =>
        if after.NoComma? then LastEntry(BareLabel(seg), ValueOf(inner), w)
        else MoreEntries(BareLabel(seg), ValueOf(inner), w, after.w, EntriesOf(after.seg, tail))
  }

  lemma LabelStrict(open: byte, it: G.Item)
    requires G.ItemOk(open, it) && StrictItem(it)
    ensures LabelOk(open, LabelOf(it)) && ItemOf(LabelOf(it), it.v) == it && ValueOk(Scalar(it.v))
  {
    hide IsStringText, IsScalarText;
  }

  /** Reading a strict collection strictly is the inverse of reading a strict value as a collection. */
  lemma {:induction false} ValueOfStrict(c: G.Coll)
    requires G.CollOk(c) && StrictColl(c)
    ensures ValueOk(ValueOf(c)) && CollOf(ValueOf(c)) == c
    decreases c
  {
    hide G.SegmentOk, StrictSegment, EntriesOk, G.TailOk, StrictTail, SegmentOf, TailOf, EntriesOf;
    EntriesOfStrict(c.open, c.seg, c.tail, true);
  }

  lemma {:induction false} EntriesOfStrict(open: byte, seg: G.Segment, t: G.Tail, first: bool)
    requires G.SegmentOk(open, seg) && G.TailOk(open, t) && StrictSegment(open, seg, t.Nest?, first)
             && StrictTail(open, t)
    ensures var e := EntriesOf(seg, t);
            EntriesOk(open, e) && SegmentOf(e) == seg && TailOf(e) == t && (e == NoEntries ==> first)
    decreases t, seg, 1
  {
    hide G.ItemOk, StrictItem, IsStringText, IsScalarText, G.AllSpace;
    match seg
    case Last(it, w) =>
      LabelStrict(open, it);
    case More(it, w1, w2, rest) =>
      LabelStrict(open, it);
      EntriesOfStrict(open, rest, t, false);
    case Empty => NestedStrict(open, seg, t);
    case BareKey(_, _, _) => NestedStrict(open, seg, t);
  }

  lemma {:induction false} NestedStrict(open: byte, seg: G.Segment, t: G.Tail)
    requires seg.Empty? || seg.BareKey?
    requires G.SegmentOk(open, seg) && G.TailOk(open, t) && StrictTail(open, t)
    requires if seg.Empty? then t.Nest? ==> open == LSQUARE else t.Nest? && IsStringText(seg.key, true)
    ensures var e := EntriesOf(seg, t);
            EntriesOk(open, e) && SegmentOf(e) == seg && TailOf(e) == t && (e == NoEntries ==> t.Close?)
    decreases t, seg, 0
  {
    hide IsStringText, G.AllSpace, G.CollOk, StrictColl, CollOf;
    if t.Nest? {
      ValueOfStrict(t.inner);
      assert LabelOk(open, BareLabel(seg)) && BareOf(BareLabel(seg)) == seg;
      if t.after.Comma? {
        EntriesOfStrict(open, t.after.seg, t.tail, false);
      }
    }
  }

  // ---- strict values are read as strict documents ----

  lemma {:induction false} CollOfStrict(v: Value)
    requires v.Container? && ValueOk(v)
    ensures StrictColl(CollOf(v))
    decreases v
  {
    hide StrictSegment, StrictTail, SegmentOf, TailOf, EntriesOk;
    EntriesStrict(v.open, v.entries, true);
  }

  /** first tells whether there may be no entry. */
  lemma {:induction false} EntriesStrict(open: byte, e: Entries, first: bool)
    requires EntriesOk(open, e) && (e == NoEntries ==> first)
    ensures StrictSegment(open, SegmentOf(e), TailOf(e).Nest?, first) && StrictTail(open, TailOf(e))
    decreases e
  {
    hide IsStringText, IsScalarText, G.AllSpace, StrictColl, CollOf;
    match e
    case NoEntries =>
    case LastEntry(l, v, w) =>
      if v.Container? { CollOfStrict(v); }
    case MoreEntries(l, v, w1, w2, rest) =>
      EntriesStrict(open, rest, false);
      if v.Container? { CollOfStrict(v); }
  }

  // ---- documents ----

  /** A document of the grammar is the reading of a strict value if and only if it is strict. */
  lemma StrictExact(d: G.Document)
    requires G.DocumentOk(d)
    ensures StrictDocument(d) <==> exists v :: ValueOk(v) && d == DocumentOf(d.before, v, d.after)
  {
    hide ValueOk, StrictColl, G.CollOk, CollOf, IsScalarText, G.AllSpace;
    if StrictDocument(d) {
      match d.root
      case Scalar(t) =>
        ScalarStrict(t);
        assert d == DocumentOf(d.before, Scalar(t), d.after);
      case Collection(c) =>
        ValueOfStrict(c);
        assert d == DocumentOf(d.before, ValueOf(c), d.after);
    }
    forall v | ValueOk(v) && d == DocumentOf(d.before, v, d.after)
      ensures StrictDocument(d)
    {
      if v.Scalar? {
        ScalarStrict(v.t);
      } else {
        CollOfStrict(v);
      }
    }
  }

  lemma ScalarStrict(t: bytes)
    ensures ValueOk(Scalar(t)) <==> IsScalarText(t, true)
  {
    hide IsScalarText;
  }

  /** The text of a strict value with white space around it. */
  ghost predicate IsStrictText(b: bytes) {
    exists before, v, after :: StrictText(b, before, v, after)
  }

  ghost predicate StrictText(b: bytes, before: bytes, v: Value, after: bytes) {
    G.AllSpace(before) && G.AllSpace(after) && ValueOk(v) && b == before + (ValueText(v) + after)
  }

  /** The strict texts are exactly the texts of the strict documents of the grammar. */
  lemma StrictTexts(b: bytes)
    ensures IsStrictText(b) <==> exists d :: G.DocumentOk(d) && StrictDocument(d) && G.DocumentText(d) == b
  {
    hide G.AllSpace, ValueOk, ValueText, G.DocumentOk, StrictDocument, G.DocumentText, DocumentOf, G.DocumentDepth,
             Depth;
    forall before, v, after | StrictText(b, before, v, after)
      ensures exists d :: G.DocumentOk(d) && StrictDocument(d) && G.DocumentText(d) == b
    {
      var d := DocumentOf(before, v, after);
      StrictIsDocument(before, v, after);
      DocumentEnds(before, v, after);
      StrictExact(d);
    }
    forall d | G.DocumentOk(d) && StrictDocument(d) && G.DocumentText(d) == b
      ensures IsStrictText(b)
    {
      StrictExact(d);
      var v :| ValueOk(v) && d == DocumentOf(d.before, v, d.after);
      SpaceAround(d);
      StrictIsDocument(d.before, v, d.after);
      assert StrictText(b, d.before, v, d.after);
    }
  }

  lemma DocumentEnds(before: bytes, v: Value, after: bytes)
    ensures DocumentOf(before, v, after).before == before && DocumentOf(before, v, after).after == after
  {
    hide CollOf;
  }

  lemma SpaceAround(d: G.Document)
    requires G.DocumentOk(d)
    ensures G.AllSpace(d.before) && G.AllSpace(d.after)
  {
    hide G.AllSpace, G.CollOk, IsScalarText;
  }
}
