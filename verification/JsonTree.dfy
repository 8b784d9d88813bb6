/** Strict JSON documents (section 2 of RFC 8259, without \u0000 and unpaired surrogate
    escapes) as trees with their white space, and their acceptance by the validator. */
module JsonTree {
  import opened Bytes
  import opened JsonScan
  import opened JsonText
  import G = JsonGrammar
  import JsonAccept

  datatype Value = Scalar(t: bytes) | Container(open: byte, w: bytes, entries: Entries)

  datatype Label = Unnamed | Named(key: bytes, w1: bytes, w2: bytes)

  datatype Entries =
    | NoEntries
    | LastEntry(name: Label, v: Value, w: bytes)
    | MoreEntries(name: Label, v: Value, w1: bytes, w2: bytes, rest: Entries)

  ghost predicate LabelOk(open: byte, l: Label) {
    match l
    case Unnamed => open == LSQUARE
    case Named(key, w1, w2) => open == LBRACE && IsStringText(key, true) && G.AllSpace(w1) && G.AllSpace(w2)
  }

  ghost predicate ValueOk(v: Value)
    decreases v
  {
    match v
    case Scalar(t) => IsScalarText(t, true)
    case Container(open, w, entries) => IsOpen(open) && G.AllSpace(w) && EntriesOk(open, entries)
  }

  ghost predicate EntriesOk(open: byte, e: Entries)
    decreases e
  {
    match e
    case NoEntries => true
    case LastEntry(l, v, w) => LabelOk(open, l) && ValueOk(v) && G.AllSpace(w)
    case MoreEntries(l, v, w1, w2, rest) =>
      LabelOk(open, l) && ValueOk(v) && G.AllSpace(w1) && G.AllSpace(w2)
      && rest != NoEntries && EntriesOk(open, rest)
  }

  function LabelText(l: Label): bytes {
    match l
    case Unnamed => []
    case Named(key, w1, w2) => key + (w1 + ([COLON] + w2))
  }

  function ValueText(v: Value): bytes
    decreases v
  {
    match v
    case Scalar(t) => t
    case Container(open, w, entries) => [open] + (w + (EntriesText(entries) + [G.CloseOf(open)]))
  }

  function EntriesText(e: Entries): bytes
    decreases e
  {
    match e
    case NoEntries => []
    case LastEntry(l, v, w) => LabelText(l) + (ValueText(v) + w)
    case MoreEntries(l, v, w1, w2, rest) =>
      LabelText(l) + (ValueText(v) + (w1 + ([COMMA] + (w2 + EntriesText(rest)))))
  }

  function Depth(v: Value): nat
    decreases v
  {
    match v
    case Scalar(_) => 0
    case Container(_, _, entries) => 1 + EntriesDepth(entries)
  }

  function EntriesDepth(e: Entries): nat
    decreases e
  {
    match e
    case NoEntries => 0
    case LastEntry(_, v, _) => Depth(v)
    case MoreEntries(_, v, _, _, rest) => if Depth(v) > EntriesDepth(rest) then Depth(v) else EntriesDepth(rest)
  }

  // ---- strict documents are documents of the grammar ----

  function ItemOf(l: Label, t: bytes): G.Item {
    match l
    case Unnamed => G.Element(t)
    case Named(key, w1, w2) => G.Member(key, w1, w2, t)
  }

  function BareOf(l: Label): G.Segment {
    match l
    case Unnamed => G.Empty
    case Named(key, w1, w2) => G.BareKey(key, w1, w2)
  }

  function CollOf(v: Value): G.Coll
    requires v.Container?
    decreases v
  {
    G.Coll(v.open, v.w, SegmentOf(v.entries), TailOf(v.entries))
  }

  /** The leading scalar entries, up to the first nested collection. */
  function SegmentOf(e: Entries): G.Segment
    decreases e
  {
    match e
    case NoEntries => G.Empty
    case LastEntry(l, v, w) => if v.Scalar? then G.Last(ItemOf(l, v.t), w) else BareOf(l)
    case MoreEntries(l, v, w1, w2, rest) =>
      if v.Scalar? then G.More(ItemOf(l, v.t), w1, w2, SegmentOf(rest)) else BareOf(l)
  }

  function TailOf(e: Entries): G.Tail
    decreases e
  {
    match e
    case NoEntries => G.Close
    case LastEntry(l, v, w) => if v.Scalar? then G.Close else G.Nest(CollOf(v), w, G.NoComma, G.Close)
    case MoreEntries(l, v, w1, w2, rest) =>
      if v.Scalar? then TailOf(rest)
      else G.Nest(CollOf(v), w1, G.Comma(w2, SegmentOf(rest)), TailOf(rest))
  }

  lemma StringRelaxes(t: bytes)
    requires IsStringText(t, true)
    ensures IsStringText(t, false)
  {
    var pieces :| StringOf(pieces, true, t);
    StrictPieces(pieces, true);
    assert StringOf(pieces, false, t);
  }

  lemma ScalarRelaxes(t: bytes)
    requires IsScalarText(t, true)
    ensures IsScalarText(t, false)
  {
    if IsStringText(t, true) { StringRelaxes(t); }
  }

  lemma LabelRelaxes(open: byte, l: Label)
    requires LabelOk(open, l)
    ensures G.SegmentOk(open, BareOf(l)) && G.SegmentText(BareOf(l)) == LabelText(l)
    ensures BareOf(l) == G.Empty || G.NeedsNest(BareOf(l))
  {
    if l.Named? { StringRelaxes(l.key); }
  }

  lemma ItemRelaxes(open: byte, l: Label, t: bytes)
    requires LabelOk(open, l) && IsScalarText(t, true)
    ensures G.ItemOk(open, ItemOf(l, t)) && G.ItemText(ItemOf(l, t)) == LabelText(l) + t
  {
    hide IsScalarText, IsStringText;
    ScalarRelaxes(t);
    if l.Named? {
      StringRelaxes(l.key);
      assert l.key + (l.w1 + ([COLON] + (l.w2 + t))) == l.key + (l.w1 + ([COLON] + l.w2)) + t;
    } else {
      assert [] + t == t;
    }
  }

  lemma RegroupMore(l: bytes, t: bytes, w1: bytes, w2: bytes, seg: bytes, tail: bytes, rest: bytes, close: bytes)
    requires seg + tail == rest + close
    ensures ((l + t) + (w1 + ([COMMA] + (w2 + seg)))) + tail == (l + (t + (w1 + ([COMMA] + (w2 + rest))))) + close
    ensures l + (t + (w1 + (([COMMA] + (w2 + seg)) + tail))) == (l + (t + (w1 + ([COMMA] + (w2 + rest))))) + close
  {
    var p := l + t + w1 + [COMMA] + w2;
    assert ((l + t) + (w1 + ([COMMA] + (w2 + seg)))) + tail == p + (seg + tail);
    assert l + (t + (w1 + (([COMMA] + (w2 + seg)) + tail))) == p + (seg + tail);
    assert (l + (t + (w1 + ([COMMA] + (w2 + rest))))) + close == p + (rest + close);
  }

  lemma RegroupLast(l: bytes, t: bytes, w: bytes, close: bytes)
    ensures ((l + t) + w) + close == (l + (t + w)) + close
    ensures l + (t + (w + ([] + close))) == (l + (t + w)) + close
  {
    assert [] + close == close;
    assert ((l + t) + w) + close == l + (t + (w + close)) == (l + (t + w)) + close;
  }

  /** What the translation of entries has to satisfy inside a collection. */
  ghost predicate Translated(open: byte, e: Entries) {
    && G.SegmentOk(open, SegmentOf(e)) && G.TailOk(open, TailOf(e))
    && (G.NeedsNest(SegmentOf(e)) || (SegmentOf(e) == G.Empty && e != NoEntries) ==> TailOf(e).Nest?)
    && G.TailDepth(TailOf(e)) == EntriesDepth(e)
    && G.SegmentText(SegmentOf(e)) + G.TailText(open, TailOf(e)) == EntriesText(e) + [G.CloseOf(open)]
  }

  lemma ScalarLast(open: byte, l: Label, t: bytes, w: bytes)
    requires LabelOk(open, l) && IsScalarText(t, true) && G.AllSpace(w)
    ensures Translated(open, LastEntry(l, Scalar(t), w))
  {
    hide IsScalarText, LabelOk, G.ItemOk, LabelText, ItemOf, G.ItemText;
    var e := LastEntry(l, Scalar(t), w);
    assert SegmentOf(e) == G.Last(ItemOf(l, t), w) && TailOf(e) == G.Close;
    assert EntriesText(e) == LabelText(l) + (t + w) by { assert ValueText(Scalar(t)) == t; }
    assert EntriesDepth(e) == 0 by { assert Depth(Scalar(t)) == 0; }
    ItemRelaxes(open, l, t);
    RegroupLast(LabelText(l), t, w, [G.CloseOf(open)]);
  }

  lemma ScalarMore(open: byte, l: Label, t: bytes, w1: bytes, w2: bytes, rest: Entries)
    requires LabelOk(open, l) && IsScalarText(t, true) && G.AllSpace(w1) && G.AllSpace(w2)
    requires Translated(open, rest) && rest != NoEntries
    ensures Translated(open, MoreEntries(l, Scalar(t), w1, w2, rest))
  {
    hide IsScalarText, LabelOk, G.ItemOk, LabelText, ItemOf, G.ItemText, G.TailOk;
    var e := MoreEntries(l, Scalar(t), w1, w2, rest);
    assert SegmentOf(e) == G.More(ItemOf(l, t), w1, w2, SegmentOf(rest)) && TailOf(e) == TailOf(rest);
    assert EntriesText(e) == LabelText(l) + (t + (w1 + ([COMMA] + (w2 + EntriesText(rest))))) by {
      assert ValueText(Scalar(t)) == t;
    }
    assert EntriesDepth(e) == EntriesDepth(rest) by { assert Depth(Scalar(t)) == 0; }
    ItemRelaxes(open, l, t);
    RegroupMore(LabelText(l), t, w1, w2, G.SegmentText(SegmentOf(rest)), G.TailText(open, TailOf(rest)),
                EntriesText(rest), [G.CloseOf(open)]);
  }

  lemma NestLast(open: byte, l: Label, v: Value, w: bytes)
    requires v.Container? && LabelOk(open, l) && G.AllSpace(w)
    requires G.CollOk(CollOf(v)) && G.CollText(CollOf(v)) == ValueText(v) && G.Depth(CollOf(v)) == Depth(v)
    ensures Translated(open, LastEntry(l, v, w))
  {
    hide LabelOk, G.SegmentOk, LabelText, BareOf, CollOf, G.CollOk, Depth, G.Depth, ValueText, G.CollText,
             G.SegmentText;
    LabelRelaxes(open, l);
    var e := LastEntry(l, v, w);
    assert SegmentOf(e) == BareOf(l) && TailOf(e) == G.Nest(CollOf(v), w, G.NoComma, G.Close);
    assert G.TailDepth(TailOf(e)) == Depth(v) by { assert G.TailDepth(G.Close) == 0; }
    assert G.TailOk(open, TailOf(e)) by { assert G.TailOk(open, G.Close); }
    JsonAccept.NestText(open, TailOf(e));
    assert G.TailText(open, G.Close) == [G.CloseOf(open)];
    RegroupLast(LabelText(l), ValueText(v), w, [G.CloseOf(open)]);
  }

  lemma NestMore(open: byte, l: Label, v: Value, w1: bytes, w2: bytes, rest: Entries)
    requires v.Container? && LabelOk(open, l) && G.AllSpace(w1) && G.AllSpace(w2)
    requires G.CollOk(CollOf(v)) && G.CollText(CollOf(v)) == ValueText(v) && G.Depth(CollOf(v)) == Depth(v)
    requires Translated(open, rest) && rest != NoEntries
    ensures Translated(open, MoreEntries(l, v, w1, w2, rest))
  {
    hide LabelOk, G.SegmentOk, LabelText, BareOf, CollOf, G.CollOk, Depth, G.Depth, ValueText, G.CollText,
             G.SegmentText;
    LabelRelaxes(open, l);
    RegroupMore(LabelText(l), ValueText(v), w1, w2, G.SegmentText(SegmentOf(rest)), G.TailText(open, TailOf(rest)),
                EntriesText(rest), [G.CloseOf(open)]);
  }

  /** A strict container is a collection of the grammar, with the same text and depth. */
  lemma {:induction false} CollOfOk(v: Value)
    requires v.Container? && ValueOk(v)
    ensures G.CollOk(CollOf(v)) && G.CollText(CollOf(v)) == ValueText(v) && G.Depth(CollOf(v)) == Depth(v)
    decreases v
  {
    EntriesTranslated(v.open, v.entries);
    CollOfText(v);
  }

  lemma CollOfText(v: Value)
    requires v.Container? && Translated(v.open, v.entries)
    ensures G.CollText(CollOf(v)) == ValueText(v)
  {
    hide G.SegmentOk, G.TailOk, G.NeedsNest, EntriesDepth, SegmentOf, TailOf, EntriesText, G.SegmentText, G.TailText;
    assert [v.open] + (v.w + (EntriesText(v.entries) + [G.CloseOf(v.open)])) == ValueText(v);
  }

  lemma {:induction false} EntriesTranslated(open: byte, e: Entries)
    requires IsOpen(open) && EntriesOk(open, e)
    ensures Translated(open, e)
    decreases e
  {
    match e
    case NoEntries =>
    case LastEntry(l, v, w) =>
      hide Translated, LabelOk, G.CollOk, IsScalarText;
      if v.Scalar? {
        ScalarLast(open, l, v.t, w);
      } else {
        CollOfOk(v);
        NestLast(open, l, v, w);
      }
    case MoreEntries(l, v, w1, w2, rest) =>
      hide Translated, LabelOk, G.CollOk, IsScalarText;
      EntriesTranslated(open, rest);
      if v.Scalar? {
        ScalarMore(open, l, v.t, w1, w2, rest);
      } else {
        CollOfOk(v);
        NestMore(open, l, v, w1, w2, rest);
      }
  }

  function DocumentOf(before: bytes, v: Value, after: bytes): G.Document {
    G.Document(before, match v { case Scalar(t) => G.Scalar(t) case Container(_, _, _) => G.Collection(CollOf(v)) },
               after)
  }

  /** Every strict document reads as a document of the grammar. */
  lemma StrictIsDocument(before: bytes, v: Value, after: bytes)
    requires G.AllSpace(before) && G.AllSpace(after) && ValueOk(v)
    ensures G.DocumentOk(DocumentOf(before, v, after))
    ensures G.DocumentText(DocumentOf(before, v, after)) == before + (ValueText(v) + after)
    ensures G.DocumentDepth(DocumentOf(before, v, after)) == Depth(v)
  {
    if v.Scalar? {
      ScalarRelaxes(v.t);
    } else {
      CollOfOk(v);
    }
  }

  /** Every strict document is accepted when nested at most MAX_DEPTH deep, and reported
      as too deep otherwise. */
  lemma StrictAccepted(before: bytes, v: Value, after: bytes)
    requires G.AllSpace(before) && G.AllSpace(after) && ValueOk(v)
    ensures ValidateStatus(before + (ValueText(v) + after)) ==
            if Depth(v) <= MAX_DEPTH then JSONSuccess else JSONMaxDepthExceeded
  {
    hide G.DocumentOk, G.DocumentText, G.DocumentDepth, ValidateStatus, Depth, ValueText;
    StrictIsDocument(before, v, after);
    JsonAccept.DocumentAccepted(DocumentOf(before, v, after));
  }
}
