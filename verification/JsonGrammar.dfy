/** The documents the bracket loop accepts, as trees. A collection is an open bracket,
    a segment of comma-separated scalars (or scalar members), and a tail of nested
    collections, each followed by white space and optionally a comma and another segment. */
module JsonGrammar {
  import opened Bytes
  import opened JsonScan
  import opened JsonText

  datatype Item =
    | Element(v: bytes)
    | Member(key: bytes, w1: bytes, w2: bytes, v: bytes)

  datatype Segment =
    | Empty
    | Last(it: Item, w: bytes)
    | More(it: Item, w1: bytes, w2: bytes, rest: Segment)
    | BareKey(key: bytes, w1: bytes, w2: bytes)

  datatype Coll = Coll(open: byte, w: bytes, seg: Segment, tail: Tail)

  datatype Tail = Close | Nest(inner: Coll, w: bytes, after: After, tail: Tail)

  datatype After = NoComma | Comma(w: bytes, seg: Segment)

  predicate AllSpace(w: bytes) {
    forall k :: 0 <= k < |w| ==> IsSpace(w[k])
  }

  function CloseOf(open: byte): byte {
    if open == LBRACE then RBRACE else RSQUARE
  }

  ghost predicate ItemOk(open: byte, it: Item) {
    match it
    case Element(v) => open == LSQUARE && IsScalarText(v, false)
    case Member(key, w1, w2, v) =>
      open == LBRACE && IsStringText(key, false) && AllSpace(w1) && AllSpace(w2) && IsScalarText(v, false)
  }

  ghost predicate SegmentOk(open: byte, seg: Segment) {
    match seg
    case Empty => true
    case Last(it, w) => ItemOk(open, it) && AllSpace(w)
    case More(it, w1, w2, rest) => ItemOk(open, it) && AllSpace(w1) && AllSpace(w2) && SegmentOk(open, rest)
    case BareKey(key, w1, w2) => open == LBRACE && IsStringText(key, false) && AllSpace(w1) && AllSpace(w2)
  }

  /** A segment that ends in a comma or a bare key must be followed by a nested collection. */
  predicate NeedsNest(seg: Segment) {
    match seg
    case Empty => false
    case Last(_, _) => false
    case More(_, _, _, rest) => rest == Empty || NeedsNest(rest)
    case BareKey(_, _, _) => true
  }

  ghost predicate CollOk(c: Coll)
    decreases c
  {
    IsOpen(c.open) && AllSpace(c.w) && SegmentOk(c.open, c.seg)
    && (NeedsNest(c.seg) ==> c.tail.Nest?) && TailOk(c.open, c.tail)
  }

  ghost predicate AfterOk(open: byte, a: After, tail: Tail) {
    a.Comma? ==> AllSpace(a.w) && SegmentOk(open, a.seg) && (a.seg == Empty || NeedsNest(a.seg) ==> tail.Nest?)
  }

  ghost predicate TailOk(open: byte, t: Tail)
    decreases t
  {
    t.Nest? ==> CollOk(t.inner) && AllSpace(t.w) && AfterOk(open, t.after, t.tail) && TailOk(open, t.tail)
  }

  function ItemText(it: Item): bytes {
    match it
    case Element(v) => v
    case Member(key, w1, w2, v) => key + (w1 + ([COLON] + (w2 + v)))
  }

  function SegmentText(seg: Segment): bytes {
    match seg
    case Empty => []
    case Last(it, w) => ItemText(it) + w
    case More(it, w1, w2, rest) => ItemText(it) + (w1 + ([COMMA] + (w2 + SegmentText(rest))))
    case BareKey(key, w1, w2) => key + (w1 + ([COLON] + w2))
  }

  function AfterText(a: After): bytes {
    match a
    case NoComma => []
    case Comma(w, seg) => [COMMA] + (w + SegmentText(seg))
  }

  function CollText(c: Coll): bytes
    decreases c
  {
    [c.open] + (c.w + (SegmentText(c.seg) + TailText(c.open, c.tail)))
  }

  function TailText(open: byte, t: Tail): bytes
    decreases t
  {
    match t
    case Close => [CloseOf(open)]
    case Nest(inner, w, after, tail) => CollText(inner) + (w + (AfterText(after) + TailText(open, tail)))
  }

  function Depth(c: Coll): (d: nat)
    ensures d >= 1
    decreases c
  {
    1 + TailDepth(c.tail)
  }

  function TailDepth(t: Tail): nat
    decreases t
  {
    match t
    case Close => 0
    case Nest(inner, _, _, tail) => if Depth(inner) > TailDepth(tail) then Depth(inner) else TailDepth(tail)
  }

  datatype Root = Scalar(v: bytes) | Collection(c: Coll)

  datatype Document = Document(before: bytes, root: Root, after: bytes)

  ghost predicate DocumentOk(d: Document) {
    AllSpace(d.before) && AllSpace(d.after)
    && match d.root { case Scalar(v) => IsScalarText(v, false) case Collection(c) => CollOk(c) }
  }

  function RootText(r: Root): bytes {
    match r
    case Scalar(v) => v
    case Collection(c) => CollText(c)
  }

  function DocumentText(d: Document): bytes {
    d.before + (RootText(d.root) + d.after)
  }

  function DocumentDepth(d: Document): nat {
    match d.root
    case Scalar(_) => 0
    case Collection(c) => Depth(c)
  }
}
