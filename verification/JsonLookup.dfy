/** Lookup in the tree of a strict document, and its agreement with the search routines. */
module JsonLookup {
  import opened Bytes
  import opened JsonScan
  import opened JsonText
  import opened JsonSearch
  import opened JsonTree
  import G = JsonGrammar
  import A = JsonAccept

  // ---- values and entries inside a buffer ----

  lemma ContainerStart(b: bytes, i: nat, v: Value)
    requires v.Container? && ValueOk(v) && At(b, i, ValueText(v))
    ensures i < |b| && b[i] == v.open && IsOpen(v.open) && At(b, i + 1, v.w)
    ensures At(b, i + 1 + |v.w|, EntriesText(v.entries) + [G.CloseOf(v.open)])
    ensures G.AllSpace(v.w) && EntriesOk(v.open, v.entries) && Depth(v) == 1 + EntriesDepth(v.entries)
  {
    hide EntriesText, EntriesOk, EntriesDepth, At;
    var body := EntriesText(v.entries) + [G.CloseOf(v.open)];
    AtConcat(b, i, [v.open], v.w + body);
    AtOne(b, i, v.open);
    AtConcat(b, i + 1, v.w, body);
  }

  lemma BracketsFromEmpty(b: bytes, i: nat, c: G.Coll)
    requires G.CollOk(c) && At(b, i, G.CollText(c)) && G.Depth(c) <= MAX_DEPTH
    ensures Brackets(b, i, []) == (JSONSuccess, i + |G.CollText(c)|)
  {
    hide Brackets, At, G.CollText, G.CollOk, G.Depth;
    A.CollRuns(b, i, [], c);
  }

  lemma ValueEndScalar(b: bytes, i: nat)
    requires ScalarEnd(b, i).Some?
    ensures ValueEnd(b, i) == ScalarEnd(b, i)
  {
  }

  lemma ValueEndContainer(b: bytes, i: nat, e: nat)
    requires i < |b| && IsOpen(b[i]) && Brackets(b, i, []) == (JSONSuccess, e)
    ensures ValueEnd(b, i) == Some(e)
  {
    hide Brackets;
    A.NotAScalar(b, i);
  }

  lemma ScalarIs(v: Value)
    requires v.Scalar? && ValueOk(v)
    ensures IsScalarText(v.t, true) && ValueText(v) == v.t
  {
    hide IsScalarText;
  }

  lemma ContainerLength(v: Value)
    requires v.Container?
    ensures |ValueText(v)| > 0
  {
    hide EntriesText;
  }

  /** The text of a strict value is skipped exactly. */
  lemma ValueSkipped(b: bytes, i: nat, v: Value)
    requires ValueOk(v) && At(b, i, ValueText(v)) && Depth(v) <= MAX_DEPTH && Delimited(b, i + |ValueText(v)|)
    ensures ValueEnd(b, i) == Some(i + |ValueText(v)|) && |ValueText(v)| > 0
    ensures i < |b| && (if v.Scalar? then ScalarStart(b[i]) else b[i] == v.open && IsOpen(v.open))
  {
    hide *;
    if v.Scalar? {
      ScalarIs(v);
      ScalarSkipped(b, i, v.t, true);
      A.AtStart(b, i, v.t);
      ValueEndScalar(b, i);
    } else {
      ContainerStart(b, i, v);
      ContainerLength(v);
      CollOfOk(v);
      BracketsFromEmpty(b, i, CollOf(v));
      ValueEndContainer(b, i, i + |ValueText(v)|);
    }
  }

  /** The key of a label, as the bytes between its quotes. */
  function RawKey(key: bytes): bytes {
    if |key| >= 2 then key[1..|key| - 1] else []
  }

  lemma LabelPieces(b: bytes, i: nat, l: Label)
    requires l.Named? && At(b, i, LabelText(l))
    ensures At(b, i, l.key) && At(b, i + |l.key|, l.w1) && At(b, i + |l.key| + |l.w1| + 1, l.w2)
    ensures var s := i + |l.key| + |l.w1|; s < |b| && b[s] == COLON
    ensures |LabelText(l)| == |l.key| + |l.w1| + 1 + |l.w2|
  {
    var j, s := A.KeyPieces(b, i, l.key, l.w1, l.w2);
  }

  lemma MemberFrom(b: bytes, i: nat, j: nat, s: nat, v: nat, e: nat)
    requires StringEnd(b, i) == Some(j) && SpaceEnd(b, j) == s && s < |b| && b[s] == COLON
    requires SpaceEnd(b, s + 1) == v && ValueEnd(b, v) == Some(e)
    ensures MemberAt(b, i) == Some(Found(i + 1, j - i - 2, v, e))
  {
    hide StringEnd, SpaceEnd, ValueEnd;
  }

  lemma StrictStringSkipped(b: bytes, i: nat, key: bytes)
    requires IsStringText(key, true) && At(b, i, key)
    ensures StringEnd(b, i) == Some(i + |key|) && |key| >= 2 && i < |b| && b[i] == QUOTE
  {
    hide StringEnd, IsStringText;
    StringSkipped(b, i, key, true);
  }

  /** A labelled value is found as a member: key without quotes, and value. */
  lemma MemberFound(b: bytes, i: nat, l: Label, e: nat)
    requires LabelOk(LBRACE, l) && At(b, i, LabelText(l))
    requires var v := i + |LabelText(l)|; v < |b| && !IsSpace(b[v]) && ValueEnd(b, v) == Some(e)
    ensures l.Named? && |l.key| >= 2 && i < |b| && b[i] == QUOTE
    ensures MemberAt(b, i) == Some(Found(i + 1, |l.key| - 2, i + |LabelText(l)|, e))
    ensures At(b, i, l.key)
  {
    hide StringEnd, SpaceEnd, ValueEnd, At, LabelText, IsStringText, MemberAt, G.AllSpace;
    LabelPieces(b, i, l);
    var j, s, v := i + |l.key|, i + |l.key| + |l.w1|, i + |LabelText(l)|;
    StrictStringSkipped(b, i, l.key);
    A.SpaceSkipped(b, j, l.w1);
    A.SpaceSkipped(b, s + 1, l.w2);
    MemberFrom(b, i, j, s, v, e);
  }

  lemma KeyMatches(b: bytes, i: nat, key: bytes, v: nat, e: nat, query: bytes)
    requires At(b, i, key) && |key| >= 2
    ensures KeyIs(b, Found(i + 1, |key| - 2, v, e), query) <==> RawKey(key) == query
  {
    var inner := b[i + 1..i + 1 + (|key| - 2)];
    assert |inner| == |key[1..|key| - 1]|;
    assert forall k :: 0 <= k < |inner| ==> inner[k] == b[i..i + |key|][k + 1] == key[1..|key| - 1][k];
  }

  /** The text after the value of the first entry. */
  function RestText(e: Entries): bytes
    requires e != NoEntries
  {
    if e.LastEntry? then e.w else e.w1 + ([COMMA] + (e.w2 + EntriesText(e.rest)))
  }

  lemma EntryPieces(b: bytes, i: nat, e: Entries, close: bytes) returns (v: nat, p: nat)
    requires e != NoEntries && At(b, i, EntriesText(e) + close)
    ensures At(b, i, LabelText(e.name)) && v == i + |LabelText(e.name)|
    ensures At(b, v, ValueText(e.v)) && p == v + |ValueText(e.v)| && At(b, p, RestText(e) + close)
  {
    var l, t, r := LabelText(e.name), ValueText(e.v), RestText(e);
    assert EntriesText(e) + close == l + (t + (r + close)) by {
      assert EntriesText(e) == l + (t + r);
    }
    hide *;
    v := i + |l|;
    p := v + |t|;
    AtConcat(b, i, l, t + (r + close));
    AtConcat(b, v, t, r + close);
  }

  lemma EntryParts(open: byte, e: Entries)
    requires EntriesOk(open, e) && e != NoEntries
    ensures LabelOk(open, e.name) && ValueOk(e.v) && Depth(e.v) <= EntriesDepth(e)
    ensures e.LastEntry? ==> G.AllSpace(e.w)
    ensures e.MoreEntries? ==> G.AllSpace(e.w1) && G.AllSpace(e.w2) && e.rest != NoEntries && EntriesOk(open, e.rest)
    ensures e.MoreEntries? ==> EntriesDepth(e.rest) <= EntriesDepth(e)
  {
  }

  lemma CloseIsDelimiter(b: bytes, i: nat, open: byte)
    requires At(b, i, [G.CloseOf(open)]) && IsOpen(open)
    ensures i < |b| && b[i] == G.CloseOf(open) && IsClose(b[i]) && !IsSpace(b[i]) && b[i] != COMMA
    ensures Delimited(b, i)
  {
    AtOne(b, i, G.CloseOf(open));
  }

  lemma LastPieces(b: bytes, p: nat, open: byte, w: bytes)
    requires At(b, p, w + [G.CloseOf(open)]) && IsOpen(open) && G.AllSpace(w)
    ensures Delimited(b, p) && CommaEnd(b, p) == (false, p + |w|) && At(b, p + |w|, [G.CloseOf(open)])
  {
    hide At, CommaEnd;
    AtConcat(b, p, w, [G.CloseOf(open)]);
    CloseIsDelimiter(b, p + |w|, open);
    A.DelimitedBySpace(b, p, w);
    A.NoCommaSkipped(b, p, w);
  }

  lemma MoreTexts(w1: bytes, w2: bytes, r: bytes, close: bytes)
    ensures (w1 + ([COMMA] + (w2 + r))) + close == (w1 + ([COMMA] + w2)) + (r + close)
  {
    assert (w1 + ([COMMA] + (w2 + r))) + close == w1 + [COMMA] + w2 + r + close;
  }

  lemma MorePieces(b: bytes, p: nat, w1: bytes, w2: bytes, r: bytes, close: bytes) returns (k: nat)
    requires At(b, p, (w1 + ([COMMA] + (w2 + r))) + close) && G.AllSpace(w1)
    ensures At(b, p, w1 + ([COMMA] + w2)) && k == p + |w1| + 1 + |w2| && At(b, k, r + close)
    ensures Delimited(b, p)
  {
    hide At;
    k := p + |w1| + 1 + |w2|;
    MoreTexts(w1, w2, r, close);
    AtConcat(b, p, w1 + ([COMMA] + w2), r + close);
    AtConcat(b, p, w1, [COMMA] + w2);
    AtConcat(b, p + |w1|, [COMMA], w2);
    AtOne(b, p + |w1|, COMMA);
    A.DelimitedBySpace(b, p, w1);
  }

  lemma NamedStart(b: bytes, i: nat, open: byte, l: Label)
    requires l.Named? && LabelOk(open, l) && At(b, i, LabelText(l))
    ensures i < |b| && b[i] == QUOTE
  {
    hide At, LabelText, IsStringText;
    LabelPieces(b, i, l);
    StrictStringSkipped(b, i, l.key);
  }

  lemma UnnamedLength(l: Label)
    requires !l.Named?
    ensures |LabelText(l)| == 0
  {
  }

  lemma EntryStartByte(b: bytes, i: nat)
    requires i < |b| && (b[i] == QUOTE || IsOpen(b[i]) || ScalarStart(b[i]))
    ensures !IsSpace(b[i]) && !IsClose(b[i]) && b[i] != COMMA
  {
  }

  lemma FirstEntryStart(b: bytes, i: nat, open: byte, e: Entries)
    requires EntriesOk(open, e) && e != NoEntries && At(b, i, EntriesText(e) + [G.CloseOf(open)])
    ensures i < |b| && !IsSpace(b[i]) && !IsClose(b[i]) && b[i] != COMMA
  {
    hide *;
    var v, p := EntryPieces(b, i, e, [G.CloseOf(open)]);
    EntryParts(open, e);
    if e.name.Named? {
      NamedStart(b, i, open, e.name);
    } else {
      UnnamedLength(e.name);
      ValueStart(b, v, e.v);
    }
    EntryStartByte(b, i);
  }

  /** Entries begin with a quote, a scalar or an open bracket. */
  lemma EntriesStart(b: bytes, i: nat, open: byte, e: Entries)
    requires IsOpen(open) && EntriesOk(open, e) && At(b, i, EntriesText(e) + [G.CloseOf(open)])
    ensures i < |b| && !IsSpace(b[i]) && (IsClose(b[i]) <==> e == NoEntries) && b[i] != COMMA
  {
    if e == NoEntries {
      assert [] + [G.CloseOf(open)] == [G.CloseOf(open)];
      CloseIsDelimiter(b, i, open);
    } else {
      FirstEntryStart(b, i, open, e);
    }
  }

  lemma ValueStart(b: bytes, i: nat, v: Value)
    requires ValueOk(v) && At(b, i, ValueText(v))
    ensures i < |b| && (IsOpen(b[i]) || ScalarStart(b[i]))
  {
    if v.Scalar? {
      ScalarAt(b, i, v.t);
    } else {
      ContainerStart(b, i, v);
    }
  }

  lemma ScalarAt(b: bytes, i: nat, t: bytes)
    requires IsScalarText(t, true) && At(b, i, t)
    ensures i < |b| && ScalarStart(b[i])
  {
    assert At(t, 0, t) by { assert t[0..|t|] == t; }
    hide At, IsScalarText, ScalarEnd;
    ScalarSkipped(t, 0, t, true);
    AtByte(b, i, t, 0);
    assert b[i + 0] == t[0];
    AtLength(b, i, t);
  }

  lemma AtLength(b: bytes, i: nat, t: bytes)
    requires At(b, i, t)
    ensures i + |t| <= |b|
  {
  }

  datatype Place = Place(v: nat, p: nat, k: nat)

  /** Where the first entry at i has its value, the value's end, and where the next entry
      (or the close bracket) stands. */
  ghost predicate EntryAt(b: bytes, i: nat, open: byte, e: Entries, at: Place)
    requires e != NoEntries
  {
    && At(b, i, LabelText(e.name)) && at.v == i + |LabelText(e.name)|
    && At(b, at.v, ValueText(e.v)) && at.p == at.v + |ValueText(e.v)|
    && ValueEnd(b, at.v) == Some(at.p) && at.v < |b| && !IsSpace(b[at.v])
    && CommaEnd(b, at.p) == (e.MoreEntries?, at.k)
    && (e.LastEntry? ==> At(b, at.k, [G.CloseOf(open)]))
    && (e.MoreEntries? ==> At(b, at.k, EntriesText(e.rest) + [G.CloseOf(open)]))
  }

  lemma AfterEntry(b: bytes, p: nat, open: byte, e: Entries) returns (k: nat)
    requires IsOpen(open) && EntriesOk(open, e) && e != NoEntries && At(b, p, RestText(e) + [G.CloseOf(open)])
    ensures Delimited(b, p) && CommaEnd(b, p) == (e.MoreEntries?, k)
    ensures e.LastEntry? ==> At(b, k, [G.CloseOf(open)])
    ensures e.MoreEntries? ==> At(b, k, EntriesText(e.rest) + [G.CloseOf(open)])
  {
    EntryParts(open, e);
    hide At, CommaEnd, EntriesText, EntriesOk;
    if e.LastEntry? {
      LastPieces(b, p, open, e.w);
      k := p + |e.w|;
    } else {
      k := MorePieces(b, p, e.w1, e.w2, EntriesText(e.rest), [G.CloseOf(open)]);
      EntriesStart(b, k, open, e.rest);
      A.CommaSkipped(b, p, e.w1, e.w2);
    }
  }

  lemma ValueStartNoSpace(b: bytes, i: nat)
    requires i < |b| && (IsOpen(b[i]) || ScalarStart(b[i]))
    ensures !IsSpace(b[i])
  {
  }

  lemma EntryIs(b: bytes, i: nat, open: byte, e: Entries, at: Place)
    requires e != NoEntries
    requires At(b, i, LabelText(e.name)) && at.v == i + |LabelText(e.name)|
    requires At(b, at.v, ValueText(e.v)) && at.p == at.v + |ValueText(e.v)|
    requires ValueEnd(b, at.v) == Some(at.p) && at.v < |b| && !IsSpace(b[at.v])
    requires CommaEnd(b, at.p) == (e.MoreEntries?, at.k)
    requires e.LastEntry? ==> At(b, at.k, [G.CloseOf(open)])
    requires e.MoreEntries? ==> At(b, at.k, EntriesText(e.rest) + [G.CloseOf(open)])
    ensures EntryAt(b, i, open, e, at)
  {
  }

  lemma EntrySkipped(b: bytes, i: nat, open: byte, e: Entries) returns (at: Place)
    requires IsOpen(open) && EntriesOk(open, e) && e != NoEntries && EntriesDepth(e) <= MAX_DEPTH
    requires At(b, i, EntriesText(e) + [G.CloseOf(open)])
    ensures EntryAt(b, i, open, e, at)
  {
    hide *;
    EntryParts(open, e);
    var v, p := EntryPieces(b, i, e, [G.CloseOf(open)]);
    var k := AfterEntry(b, p, open, e);
    ValueSkipped(b, v, e.v);
    ValueStart(b, v, e.v);
    ValueStartNoSpace(b, v);
    at := Place(v, p, k);
    EntryIs(b, i, open, e, at);
  }

  // ---- lookup in the tree ----

  function LookupKey(e: Entries, key: bytes): Option<Value>
    decreases e
  {
    match e
    case NoEntries => None
    case LastEntry(l, v, _) => if l.Named? && RawKey(l.key) == key then Some(v) else None
    case MoreEntries(l, v, _, _, rest) =>
      if l.Named? && RawKey(l.key) == key then Some(v) else LookupKey(rest, key)
  }

  function LookupIndex(e: Entries, n: nat): Option<Value>
    decreases e
  {
    match e
    case NoEntries => None
    case LastEntry(_, v, _) => if n == 0 then Some(v) else None
    case MoreEntries(_, v, _, _, rest) => if n == 0 then Some(v) else LookupIndex(rest, n - 1)
  }

  /** A search answer names the text of the looked-up value, or its absence. */
  ghost predicate Answers(b: bytes, found: Option<Slice>, v: Option<Value>, depth: nat) {
    match v
    case None => found == None
    case Some(x) =>
      found.Some? && At(b, found.value.offset, ValueText(x)) && found.value.length == |ValueText(x)|
      && ValueOk(x) && Depth(x) <= depth
  }

  lemma WeakerDepth(b: bytes, found: Option<Slice>, v: Option<Value>, d: nat, depth: nat)
    requires Answers(b, found, v, d) && d <= depth
    ensures Answers(b, found, v, depth)
  {
  }

  lemma NoMember(b: bytes, i: nat)
    requires i < |b| && IsClose(b[i])
    ensures MemberAt(b, i) == None && ValueEnd(b, i) == None
  {
    A.NotAScalar(b, i);
  }

  lemma {:induction false} ObjectLookup(b: bytes, i: nat, e: Entries, query: bytes)
    requires EntriesOk(LBRACE, e) && EntriesDepth(e) <= MAX_DEPTH && At(b, i, EntriesText(e) + [G.CloseOf(LBRACE)])
    ensures Answers(b, ObjectSearchFrom(b, i, query), LookupKey(e, query), EntriesDepth(e))
    decreases e
  {
    hide At, EntriesText, EntriesOk, EntriesDepth, MemberAt, ObjectSearchFrom, KeyIs, CommaEnd, ValueEnd, Depth,
      ValueText, ValueOk, LabelText, LabelOk, RawKey;
    EntriesStart(b, i, LBRACE, e);
    ObjectSearchStep(b, i, query);
    if e == NoEntries {
      NoMember(b, i);
    } else {
      EntryParts(LBRACE, e);
      var at := EntrySkipped(b, i, LBRACE, e);
      MemberFound(b, i, e.name, at.p);
      KeyMatches(b, i, e.name.key, at.v, at.p, query);
      if RawKey(e.name.key) != query && e.MoreEntries? {
        ObjectLookup(b, at.k, e.rest, query);
      }
    }
  }

  lemma {:induction false} ArrayLookup(b: bytes, i: nat, e: Entries, current: nat, index: nat)
    requires EntriesOk(LSQUARE, e) && EntriesDepth(e) <= MAX_DEPTH && At(b, i, EntriesText(e) + [G.CloseOf(LSQUARE)])
    requires current <= index
    ensures Answers(b, ArraySearchFrom(b, i, current, index), LookupIndex(e, index - current), EntriesDepth(e))
    decreases e
  {
    hide At, EntriesText, EntriesOk, EntriesDepth, ArraySearchFrom, CommaEnd, ValueEnd, Depth, ValueText, ValueOk,
             LabelText;
    EntriesStart(b, i, LSQUARE, e);
    ArraySearchStep(b, i, current, index);
    if e == NoEntries {
      NoMember(b, i);
    } else {
      EntryParts(LSQUARE, e);
      var at := EntrySkipped(b, i, LSQUARE, e);
      UnnamedText(e.name);
      if current != index && e.MoreEntries? {
        ArrayLookup(b, at.k, e.rest, current + 1, index);
      }
    }
  }

  lemma UnnamedText(l: Label)
    requires LabelOk(LSQUARE, l)
    ensures LabelText(l) == []
  {
  }

  // ---- paths ----

  /** One step of a search path: a member by its raw key, or an element by a decimal index. */
  datatype Step = Key(k: bytes) | Index(digits: bytes)

  predicate StepOk(s: Step) {
    match s
    case Key(k) => |k| > 0 && forall j :: 0 <= j < |k| ==> k[j] != DOT && k[j] != LSQUARE
    case Index(d) => |d| > 0 && AllDigits(d)
  }

  predicate PathOk(path: seq<Step>) {
    forall s :: s in path ==> StepOk(s)
  }

  /** The number a decimal numeral stands for. */
  function Decimal(d: bytes, value: nat): nat {
    if d == [] then value else Decimal(d[1..], value * 10 + HexToInt(d[0]))
  }

  function Select(v: Value, s: Step): Option<Value> {
    match s
    case Key(k) => if v.Container? && v.open == LBRACE then LookupKey(v.entries, k) else None
    case Index(d) => if v.Container? && v.open == LSQUARE then LookupIndex(v.entries, Decimal(d, 0)) else None
  }

  datatype Outcome = Reached(v: Value) | Missing | IndexTooLarge

  /** Following a path in the tree, first match at each level. */
  function Resolve(v: Value, path: seq<Step>): Outcome
    decreases |path|
  {
    if path == [] then Reached(v)
    else if path[0].Index? && Decimal(path[0].digits, 0) > MAX_INDEX_VALUE then IndexTooLarge
    else
      match Select(v, path[0])
      case None => Missing
      case Some(x) => Resolve(x, path[1..])
  }

  function StepText(s: Step): bytes {
    match s
    case Key(k) => k
    case Index(d) => [LSQUARE] + (d + [RSQUARE])
  }

  function Separator(rest: seq<Step>): bytes {
    if rest != [] && rest[0].Key? then [DOT] else []
  }

  /** The query for a path: keys separated by dots, indices in square brackets. */
  function QueryText(path: seq<Step>): bytes {
    if path == [] then []
    else StepText(path[0]) + (Separator(path[1..]) + QueryText(path[1..]))
  }

  lemma {:induction false} ClampedStaysTooLarge(q: bytes, i: nat)
    ensures DigitsValue(q, i, -1) == -1
    decreases |q| - i
  {
    if i < |q| && IsDigit(q[i]) { ClampedStaysTooLarge(q, i + 1); }
  }

  lemma {:induction false} DecimalGrows(d: bytes, value: nat)
    ensures Decimal(d, value) >= value
    decreases |d|
  {
    if d != [] { DecimalGrows(d[1..], value * 10 + HexToInt(d[0])); }
  }

  /** The clamped accumulation gives the numeral's value exactly when it is in range. */
  lemma {:induction false} DigitsAreDecimal(q: bytes, i: nat, d: bytes, value: nat)
    requires AllDigits(d) && At(q, i, d) && DigitsStop(q, i + |d|) && value <= MAX_INDEX_VALUE
    ensures DigitsValue(q, i, value) == if Decimal(d, value) <= MAX_INDEX_VALUE then Decimal(d, value) else -1
    decreases |d|
  {
    if d != [] {
      AtByte(q, i, d, 0);
      assert q[i + 1..i + |d|] == q[i..i + |d|][1..] == d[1..];
      var next := value * 10 + HexToInt(d[0]);
      if value <= MAX_FACTOR {
        DigitsAreDecimal(q, i + 1, d[1..], next);
      } else {
        ClampedStaysTooLarge(q, i + 1);
        DecimalGrows(d[1..], next);
      }
    }
  }

  lemma {:induction false} QueryPartSkipped(q: bytes, i: nat, k: bytes)
    requires StepOk(Key(k)) || k == []
    requires At(q, i, k) && (i + |k| < |q| ==> q[i + |k|] == DOT || q[i + |k|] == LSQUARE)
    ensures QueryPartEnd(q, i) == i + |k|
    decreases |k|
  {
    if k != [] {
      AtByte(q, i, k, 0);
      assert q[i + 1..i + |k|] == q[i..i + |k|][1..] == k[1..];
      assert k[1..] != [] ==> StepOk(Key(k[1..]));
      QueryPartSkipped(q, i + 1, k[1..]);
    }
  }

  lemma PathParts(path: seq<Step>)
    requires PathOk(path) && path != []
    ensures StepOk(path[0]) && PathOk(path[1..])
  {
    assert path[0] in path;
  }

  lemma QueryTextIs(path: seq<Step>)
    requires path != []
    ensures QueryText(path) == StepText(path[0]) + (Separator(path[1..]) + QueryText(path[1..]))
  {
    hide StepText, Separator;
  }

  /** Where the first step, the separator and the rest of a query stand. */
  lemma QueryPieces(q: bytes, i: nat, path: seq<Step>) returns (j: nat, m: nat)
    requires path != [] && At(q, i, QueryText(path))
    ensures At(q, i, StepText(path[0])) && j == i + |StepText(path[0])|
    ensures At(q, j, Separator(path[1..])) && m == j + |Separator(path[1..])|
    ensures At(q, m, QueryText(path[1..])) && m + |QueryText(path[1..])| == i + |QueryText(path)|
  {
    hide *;
    QueryTextIs(path);
    var s, x, r := StepText(path[0]), Separator(path[1..]), QueryText(path[1..]);
    var xr := x + r;
    j := i + |s|;
    m := j + |x|;
    AtConcat(q, i, s, xr);
    AtConcat(q, j, x, r);
  }

  lemma IndexPieces(q: bytes, i: nat, d: bytes)
    requires At(q, i, StepText(Index(d)))
    ensures i + |d| + 2 <= |q| && q[i] == LSQUARE && At(q, i + 1, d) && q[i + 1 + |d|] == RSQUARE
  {
    AtConcat(q, i, [LSQUARE], d + [RSQUARE]);
    AtConcat(q, i + 1, d, [RSQUARE]);
    AtOne(q, i, LSQUARE);
    AtOne(q, i + 1 + |d|, RSQUARE);
  }

  /** How the rest of a query begins. */
  lemma RestStart(q: bytes, i: nat, path: seq<Step>)
    requires PathOk(path) && At(q, i, QueryText(path)) && i + |QueryText(path)| == |q|
    ensures path == [] ==> i == |q|
    ensures path != [] && path[0].Key? ==> i < |q| && q[i] != DOT && q[i] != LSQUARE
    ensures path != [] && path[0].Index? ==> i + 2 < |q| && q[i] == LSQUARE
  {
    if path != [] {
      PathParts(path);
      var j, m := QueryPieces(q, i, path);
      match path[0]
      case Key(k) => AtByte(q, i, k, 0);
      case Index(d) => IndexPieces(q, i, d);
    }
  }

  lemma SeparatorSkipped(q: bytes, j: nat, m: nat, rest: seq<Step>)
    requires PathOk(rest) && At(q, j, Separator(rest)) && m == j + |Separator(rest)|
    requires At(q, m, QueryText(rest)) && m + |QueryText(rest)| == |q|
    ensures SkipSeparator(q, j) == m
    ensures j < |q| ==> (q[j] == DOT || q[j] == LSQUARE) && j < |q| - 1
  {
    RestStart(q, m, rest);
    hide QueryText;
    if rest != [] && rest[0].Key? { AtOne(q, j, DOT); }
  }

  lemma KeyPartAt(q: bytes, i: nat, k: bytes)
    requires StepOk(Key(k)) && At(q, i, k)
    requires var j := i + |k|; j < |q| ==> (q[j] == DOT || q[j] == LSQUARE) && j < |q| - 1
    ensures i < |q| && PartAt(q, i) == KeyPart(i + |k|) && q[i..i + |k|] == k
  {
    AtByte(q, i, k, 0);
    hide QueryPartEnd;
    QueryPartSkipped(q, i, k);
  }

  lemma IndexPartFrom(q: bytes, i: nat, j: nat, n: int)
    requires i + 1 < j < |q| && q[i] == LSQUARE && DigitsEnd(q, i + 1) == j && q[j] == RSQUARE
    requires DigitsValue(q, i + 1, 0) == n >= -1
    ensures PartAt(q, i) == if n >= 0 then IndexPart(n, j + 1) else BadPart
  {
    hide DigitsEnd, DigitsValue;
  }

  lemma IndexPartAt(q: bytes, i: nat, d: bytes)
    requires StepOk(Index(d)) && At(q, i, StepText(Index(d)))
    ensures i < |q|
    ensures PartAt(q, i) == if Decimal(d, 0) <= MAX_INDEX_VALUE then IndexPart(Decimal(d, 0), i + |d| + 2) else BadPart
  {
    hide DigitsEnd, DigitsValue, At, Decimal, StepText, PartAt;
    IndexPieces(q, i, d);
    DigitsSkipped(q, i + 1, d);
    DigitsAreDecimal(q, i + 1, d, 0);
    IndexPartFrom(q, i, i + 1 + |d|, DigitsValue(q, i + 1, 0));
  }

  // ---- searching a document ----

  lemma ContainerSearched(w: bytes, s: nat, v: Value)
    requires v.Container? && ValueOk(v) && Depth(v) <= MAX_DEPTH && At(w, s, ValueText(v)) && SpaceEnd(w, 0) == s
    ensures s < |w| && w[s] == v.open && EntriesOk(v.open, v.entries) && EntriesDepth(v.entries) < Depth(v)
    ensures At(w, SpaceEnd(w, s + 1), EntriesText(v.entries) + [G.CloseOf(v.open)])
  {
    hide At, EntriesText, EntriesOk, EntriesDepth, SpaceEnd, ValueText, ValueOk, Depth;
    ContainerStart(w, s, v);
    EntriesStart(w, s + 1 + |v.w|, v.open, v.entries);
    A.SpaceSkipped(w, s + 1, v.w);
  }

  lemma NotSearched(w: bytes, s: nat, v: Value, open: byte)
    requires ValueOk(v) && At(w, s, ValueText(v)) && IsOpen(open)
    requires v.Scalar? || v.open != open
    ensures s < |w| && w[s] != open
  {
    if v.Scalar? { ScalarAt(w, s, v.t); } else { ContainerStart(w, s, v); }
  }

  /** Searching one level of the window that holds v gives the value the tree has there. */
  lemma KeySearched(w: bytes, s: nat, v: Value, k: bytes)
    requires ValueOk(v) && Depth(v) <= MAX_DEPTH && At(w, s, ValueText(v)) && SpaceEnd(w, 0) == s
    ensures Answers(w, ObjectSearchEnd(w, k), Select(v, Key(k)), MAX_DEPTH)
  {
    hide At, ValueText, ValueOk, Depth, SpaceEnd, EntriesText, EntriesOk, EntriesDepth, ObjectSearchFrom,
      ObjectSearchEnd, LookupKey;
    ObjectSearchStart(w, k);
    if v.Container? && v.open == LBRACE {
      ContainerSearched(w, s, v);
      ObjectLookup(w, SpaceEnd(w, s + 1), v.entries, k);
      WeakerDepth(w, ObjectSearchEnd(w, k), LookupKey(v.entries, k), EntriesDepth(v.entries), MAX_DEPTH);
    } else {
      NotSearched(w, s, v, LBRACE);
    }
  }

  lemma IndexSearched(w: bytes, s: nat, v: Value, d: bytes)
    requires ValueOk(v) && Depth(v) <= MAX_DEPTH && At(w, s, ValueText(v)) && SpaceEnd(w, 0) == s
    ensures Answers(w, ArraySearchEnd(w, Decimal(d, 0)), Select(v, Index(d)), MAX_DEPTH)
  {
    hide At, ValueText, ValueOk, Depth, SpaceEnd, EntriesText, EntriesOk, EntriesDepth, ArraySearchFrom,
      ArraySearchEnd, LookupIndex, Decimal;
    var n := Decimal(d, 0);
    ArraySearchStart(w, n);
    if v.Container? && v.open == LSQUARE {
      ContainerSearched(w, s, v);
      ArrayLookup(w, SpaceEnd(w, s + 1), v.entries, 0, n);
      WeakerDepth(w, ArraySearchEnd(w, n), LookupIndex(v.entries, n), EntriesDepth(v.entries), MAX_DEPTH);
    } else {
      NotSearched(w, s, v, LSQUARE);
    }
  }

  lemma WindowAt(b: bytes, start: nat, length: nat, offset: nat, t: bytes)
    requires start + length <= |b| && At(b[start..start + length], offset, t)
    ensures At(b, start + offset, t)
  {
    var w := b[start..start + length];
    forall k | 0 <= k < |t| ensures b[start + offset + k] == t[k] {
      assert b[start + offset + k] == w[offset + k] == w[offset..offset + |t|][k];
    }
    assert b[start + offset..start + offset + |t|] == t;
  }

  lemma MultiSearchKey(b: bytes, q: bytes, i: nat, start: nat, length: nat, end: nat)
    requires i < |q| && start + length <= |b| && PartAt(q, i) == KeyPart(end)
    ensures MultiSearchFrom(b, q, i, start, length) ==
            Descend(b, q, end, start, length, ObjectSearchEnd(b[start..start + length], q[i..end]))
  {
    hide ObjectSearchEnd, Descend;
  }

  lemma MultiSearchIndex(b: bytes, q: bytes, i: nat, start: nat, length: nat, n: nat, end: nat)
    requires i < |q| && start + length <= |b| && PartAt(q, i) == IndexPart(n, end)
    ensures MultiSearchFrom(b, q, i, start, length) ==
            Descend(b, q, end, start, length, ArraySearchEnd(b[start..start + length], n))
  {
    hide ArraySearchEnd, Descend;
  }

  lemma MultiSearchBad(b: bytes, q: bytes, i: nat, start: nat, length: nat)
    requires i < |q| && start + length <= |b| && PartAt(q, i) == BadPart
    ensures MultiSearchFrom(b, q, i, start, length).0 == JSONBadParameter
  {
  }

  lemma MultiSearchEnd(b: bytes, q: bytes, start: nat, length: nat)
    requires start + length <= |b|
    ensures MultiSearchFrom(b, q, |q|, start, length) == (JSONSuccess, start, length)
  {
  }

  lemma DescendFound(b: bytes, q: bytes, i: nat, start: nat, length: nat, found: Option<Slice>)
    requires 0 < i <= |q| && start + length <= |b|
    requires found.Some? ==> found.value.offset + found.value.length <= length && found.value.length > 0
    ensures found.None? ==> Descend(b, q, i, start, length, found).0 == JSONNotFound
    ensures found.Some? ==>
              Descend(b, q, i, start, length, found) ==
              MultiSearchFrom(b, q, SkipSeparator(q, i), start + found.value.offset, found.value.length)
  {
    hide MultiSearchFrom;
  }

  /** The result of a search agrees with following the path in the tree. */
  ghost predicate SearchAgrees(b: bytes, r: (Status, nat, nat), o: Outcome) {
    match o
    case Reached(u) =>
      r.0 == JSONSuccess && At(b, r.1, ValueText(u)) && r.2 == |ValueText(u)| && ValueOk(u)
    case Missing => r.0 == JSONNotFound
    case IndexTooLarge => r.0 == JSONBadParameter
  }

  lemma ResolveStep(v: Value, path: seq<Step>)
    requires path != []
    ensures path[0].Index? && Decimal(path[0].digits, 0) > MAX_INDEX_VALUE ==> Resolve(v, path) == IndexTooLarge
    ensures !(path[0].Index? && Decimal(path[0].digits, 0) > MAX_INDEX_VALUE) ==>
              Resolve(v, path) == match Select(v, path[0]) case None => Missing case Some(x) => Resolve(x, path[1..])
  {
    hide Select, Decimal;
  }

  lemma KeyStepSearched(b: bytes, q: bytes, i: nat, start: nat, length: nat, s: nat, v: Value, k: bytes)
    requires StepOk(Key(k)) && At(q, i, k) && start + length <= |b| && ValueOk(v) && Depth(v) <= MAX_DEPTH
    requires var j := i + |k|; j < |q| ==> (q[j] == DOT || q[j] == LSQUARE) && j < |q| - 1
    requires At(b[start..start + length], s, ValueText(v)) && SpaceEnd(b[start..start + length], 0) == s
    ensures var found := ObjectSearchEnd(b[start..start + length], k);
            && i < |q| && 0 < i + |k| <= |q|
            && (found.Some? ==> found.value.offset + found.value.length <= length && found.value.length > 0)
            && MultiSearchFrom(b, q, i, start, length) == Descend(b, q, i + |k|, start, length, found)
            && Answers(b[start..start + length], found, Select(v, Key(k)), MAX_DEPTH)
  {
    hide *;
    KeyPartAt(q, i, k);
    KeySearched(b[start..start + length], s, v, k);
    KeyLength(q, i, k);
    MultiSearchKey(b, q, i, start, length, i + |k|);
  }

  lemma KeyLength(q: bytes, i: nat, k: bytes)
    requires StepOk(Key(k)) && At(q, i, k)
    ensures 0 < i + |k| <= |q|
  {
  }

  lemma IndexLength(q: bytes, i: nat, d: bytes)
    requires At(q, i, StepText(Index(d)))
    ensures 0 < i + |d| + 2 <= |q| && |StepText(Index(d))| == |d| + 2
  {
  }

  lemma IndexStepSearched(b: bytes, q: bytes, i: nat, start: nat, length: nat, s: nat, v: Value, d: bytes)
    requires StepOk(Index(d)) && At(q, i, StepText(Index(d))) && Decimal(d, 0) <= MAX_INDEX_VALUE
    requires start + length <= |b| && ValueOk(v) && Depth(v) <= MAX_DEPTH
    requires At(b[start..start + length], s, ValueText(v)) && SpaceEnd(b[start..start + length], 0) == s
    ensures var found := ArraySearchEnd(b[start..start + length], Decimal(d, 0));
            && i < |q| && 0 < i + |d| + 2 <= |q|
            && (found.Some? ==> found.value.offset + found.value.length <= length && found.value.length > 0)
            && MultiSearchFrom(b, q, i, start, length) == Descend(b, q, i + |d| + 2, start, length, found)
            && Answers(b[start..start + length], found, Select(v, Index(d)), MAX_DEPTH)
  {
    hide *;
    IndexPartAt(q, i, d);
    IndexLength(q, i, d);
    IndexSearched(b[start..start + length], s, v, d);
    MultiSearchIndex(b, q, i, start, length, Decimal(d, 0), i + |d| + 2);
  }

  lemma KeyText(k: bytes)
    ensures StepText(Key(k)) == k
  {
  }

  /** One step of the search in the window of the given offset and length. */
  lemma StepSearched(b: bytes, q: bytes, i: nat, start: nat, length: nat, s: nat, v: Value, path: seq<Step>)
    returns (end: nat, found: Option<Slice>)
    requires path != [] && PathOk(path) && At(q, i, QueryText(path)) && i + |QueryText(path)| == |q|
    requires start + length <= |b| && ValueOk(v) && Depth(v) <= MAX_DEPTH
    requires At(b[start..start + length], s, ValueText(v)) && SpaceEnd(b[start..start + length], 0) == s
    requires path[0].Index? ==> Decimal(path[0].digits, 0) <= MAX_INDEX_VALUE
    ensures 0 < end <= |q|
            && (found.Some? ==> found.value.offset + found.value.length <= length && found.value.length > 0)
    ensures MultiSearchFrom(b, q, i, start, length) == Descend(b, q, end, start, length, found)
    ensures Answers(b[start..start + length], found, Select(v, path[0]), MAX_DEPTH)
    ensures At(q, SkipSeparator(q, end), QueryText(path[1..]))
    ensures SkipSeparator(q, end) + |QueryText(path[1..])| == |q|
  {
    hide *;
    PathParts(path);
    var m;
    end, m := QueryPieces(q, i, path);
    SeparatorSkipped(q, end, m, path[1..]);
    if path[0].Key? {
      KeyText(path[0].k);
      KeyStepSearched(b, q, i, start, length, s, v, path[0].k);
      found := ObjectSearchEnd(b[start..start + length], path[0].k);
    } else {
      IndexStepSearched(b, q, i, start, length, s, v, path[0].digits);
      IndexLength(q, i, path[0].digits);
      found := ArraySearchEnd(b[start..start + length], Decimal(path[0].digits, 0));
    }
  }

  lemma ExactWindow(b: bytes, start: nat, v: Value)
    requires At(b, start, ValueText(v)) && ValueOk(v)
    ensures start + |ValueText(v)| <= |b|
    ensures At(b[start..start + |ValueText(v)|], 0, ValueText(v))
    ensures SpaceEnd(b[start..start + |ValueText(v)|], 0) == 0
  {
    hide ValueText, ValueOk, SpaceEnd, ScalarStart, IsOpen, IsSpace;
    var w := b[start..start + |ValueText(v)|];
    assert w[0..|w|] == w;
    ValueStart(w, 0, v);
    ValueStartNoSpace(w, 0);
    A.NoSpace(w, 0);
  }

  lemma AnswersSome(b: bytes, found: Option<Slice>, v: Option<Value>, depth: nat)
    requires Answers(b, found, v, depth)
    ensures v.None? <==> found.None?
    ensures v.Some? ==> At(b, found.value.offset, ValueText(v.value)) && found.value.length == |ValueText(v.value)|
                        && ValueOk(v.value) && Depth(v.value) <= depth
  {
  }

  /** A path that continues below a value is followed inside the window of that value. */
  lemma {:induction false} PathSearched(b: bytes, q: bytes, i: nat, start: nat, length: nat, s: nat, v: Value,
                                        path: seq<Step>)
    requires path != [] && PathOk(path) && At(q, i, QueryText(path)) && i + |QueryText(path)| == |q|
    requires start + length <= |b| && ValueOk(v) && Depth(v) <= MAX_DEPTH
    requires At(b[start..start + length], s, ValueText(v)) && SpaceEnd(b[start..start + length], 0) == s
    ensures i <= |q| && SearchAgrees(b, MultiSearchFrom(b, q, i, start, length), Resolve(v, path))
    decreases |path|, 0
  {
    hide At, QueryText, SpaceEnd, ValueText, ValueOk, Depth, MultiSearchFrom, Descend, Select, Answers, Decimal,
      SkipSeparator, PathOk, Resolve, PartAt;
    ResolveStep(v, path);
    PathParts(path);
    if path[0].Index? && Decimal(path[0].digits, 0) > MAX_INDEX_VALUE {
      BadIndexSearched(b, q, i, start, length, path);
    } else {
      var end, found := StepSearched(b, q, i, start, length, s, v, path);
      AnswersSome(b[start..start + length], found, Select(v, path[0]), MAX_DEPTH);
      DescendFound(b, q, end, start, length, found);
      if found.Some? {
        var x := Select(v, path[0]).value;
        WindowAt(b, start, length, found.value.offset, ValueText(x));
        RestSearched(b, q, SkipSeparator(q, end), start + found.value.offset, x, path[1..]);
      }
    }
  }

  lemma BadIndexSearched(b: bytes, q: bytes, i: nat, start: nat, length: nat, path: seq<Step>)
    requires path != [] && PathOk(path) && At(q, i, QueryText(path)) && start + length <= |b|
    requires path[0].Index? && Decimal(path[0].digits, 0) > MAX_INDEX_VALUE
    ensures i < |q| && MultiSearchFrom(b, q, i, start, length).0 == JSONBadParameter
  {
    hide At, QueryText, MultiSearchFrom, Decimal, PartAt, PathOk;
    PathParts(path);
    var j, m := QueryPieces(q, i, path);
    IndexPartAt(q, i, path[0].digits);
    MultiSearchBad(b, q, i, start, length);
  }

  lemma EmptyQuery()
    ensures QueryText([]) == []
  {
  }

  lemma ResolveEnd(v: Value)
    ensures Resolve(v, []) == Reached(v)
  {
  }

  lemma {:induction false} RestSearched(b: bytes, q: bytes, i: nat, start: nat, v: Value, path: seq<Step>)
    requires PathOk(path) && At(q, i, QueryText(path)) && i + |QueryText(path)| == |q|
    requires ValueOk(v) && Depth(v) <= MAX_DEPTH && At(b, start, ValueText(v))
    ensures start + |ValueText(v)| <= |b| && i <= |q|
    ensures SearchAgrees(b, MultiSearchFrom(b, q, i, start, |ValueText(v)|), Resolve(v, path))
    decreases |path|, 1
  {
    hide At, QueryText, SpaceEnd, ValueText, ValueOk, Depth, MultiSearchFrom, PathOk, Resolve;
    ExactWindow(b, start, v);
    if path == [] {
      EmptyQuery();
      ResolveEnd(v);
      MultiSearchEnd(b, q, start, |ValueText(v)|);
    } else {
      PathSearched(b, q, i, start, |ValueText(v)|, 0, v, path);
    }
  }

  // ---- the search result ----

  /** The bytes a found value is reported as: the contents of a string, any other text whole. */
  function ReportedText(v: Value): bytes {
    var t := ValueText(v);
    if v.Scalar? && |t| >= 2 && t[0] == QUOTE then t[1..|t| - 1] else t
  }

  /** The type of a value in the tree. */
  function KindOf(v: Value): ValueType
    requires v.Scalar? ==> |v.t| > 0
  {
    match v
    case Scalar(t) =>
      if t[0] == QUOTE then JSONString
      else if t == TRUE_TEXT then JSONTrue
      else if t == FALSE_TEXT then JSONFalse
      else if t == NULL_TEXT then JSONNull
      else JSONNumber
    case Container(open, _, _) => if open == LBRACE then JSONObject else JSONArray
  }

  /** A search answer tells the reported bytes and the type of a value. */
  ghost predicate Tells(b: bytes, a: Answer, v: Value) {
    && (v.Scalar? ==> |v.t| > 0)
    && a.kind == KindOf(v)
    && a.length == |ReportedText(v)| && At(b, a.value, ReportedText(v))
  }

  lemma StringKind(t: bytes)
    requires IsStringText(t, true)
    ensures |t| >= 2 && t[0] == QUOTE
  {
    assert At(t, 0, t) by { assert t[0..|t|] == t; }
    hide StringEnd, IsStringText, At;
    StringSkipped(t, 0, t, true);
  }

  lemma ScalarKinds(t: bytes)
    requires IsScalarText(t, true)
    ensures |t| > 0 && (t[0] == QUOTE ==> |t| >= 2)
    ensures GetType(t[0]) == KindOf(Scalar(t))
  {
    hide IsStringText, IsNumberText;
    if IsStringText(t, true) {
      StringKind(t);
    } else if IsNumberText(t) {
      NumberKind(t);
    }
  }

  lemma NumberKind(t: bytes)
    requires IsNumberText(t)
    ensures |t| > 0 && (t[0] == MINUS || IsDigit(t[0]))
  {
    assert At(t, 0, t) by { assert t[0..|t|] == t; }
    hide NumberEnd, IsNumberText, At;
    NumberSkipped(t, 0, t);
  }

  lemma ReportTells(b: bytes, i: nat, v: Value)
    requires ValueOk(v) && At(b, i, ValueText(v))
    ensures i < |b| && Tells(b, Report(b, i, |ValueText(v)|), v)
  {
    hide At, IsScalarText;
    if v.Scalar? {
      ScalarKinds(v.t);
      AtByte(b, i, v.t, 0);
      AtLength(b, i, v.t);
      if v.t[0] == QUOTE { AtInner(b, i, v.t); }
    } else {
      ContainerStart(b, i, v);
    }
  }

  lemma AtInner(b: bytes, i: nat, t: bytes)
    requires At(b, i, t) && |t| >= 2
    ensures At(b, i + 1, t[1..|t| - 1])
  {
    var u := t[1..|t| - 1];
    forall k | 0 <= k < |u| ensures b[i + 1 + k] == u[k] {
      assert b[i + 1 + k] == b[i..i + |t|][1 + k];
    }
    assert b[i + 1..i + 1 + |u|] == u;
  }

  lemma SearchResultOf(b: bytes, q: bytes)
    requires |b| > 0 && |q| > 0
    ensures var r := MultiSearchFrom(b, q, 0, 0, |b|);
            SearchResult(b, q) == if r.0 == JSONSuccess then (r.0, Some(Report(b, r.1, r.2))) else (r.0, None)
  {
    hide MultiSearchFrom;
  }

  lemma DocumentWindow(before: bytes, v: Value, after: bytes)
    requires G.AllSpace(before) && ValueOk(v)
    ensures var b := before + (ValueText(v) + after);
            |b| > 0 && b[0..0 + |b|] == b && At(b, |before|, ValueText(v)) && SpaceEnd(b, 0) == |before|
  {
    var t := ValueText(v);
    var b := before + (t + after);
    assert b[0..|b|] == b;
    hide At, ValueText, ValueOk, SpaceEnd;
    AtConcat(b, 0, before, t + after);
    AtConcat(b, |before|, t, after);
    ValueStart(b, |before|, v);
    ValueStartNoSpace(b, |before|);
    A.SpaceSkipped(b, 0, before);
  }

  lemma QueryNonEmpty(path: seq<Step>)
    requires path != [] && PathOk(path)
    ensures |QueryText(path)| > 0 && At(QueryText(path), 0, QueryText(path))
  {
    PathParts(path);
    var q := QueryText(path);
    assert q[0..|q|] == q;
  }

  /** On a strict document nested at most MAX_DEPTH deep, a search for a well-formed path
      reports the text and type of the value the tree has at that path, the first equal
      key winning at each level; JSONNotFound if there is none; JSONBadParameter when an
      index on the way is too large. */
  lemma SearchRefinesLookup(before: bytes, v: Value, after: bytes, path: seq<Step>)
    requires G.AllSpace(before) && ValueOk(v) && Depth(v) <= MAX_DEPTH && path != [] && PathOk(path)
    ensures var b := before + (ValueText(v) + after);
            var (status, answer) := SearchResult(b, QueryText(path));
            match Resolve(v, path)
            case Reached(u) => status == JSONSuccess && answer.Some? && Tells(b, answer.value, u)
            case Missing => status == JSONNotFound && answer == None
            case IndexTooLarge => status == JSONBadParameter && answer == None
  {
    var b, q := before + (ValueText(v) + after), QueryText(path);
    hide At, ValueText, ValueOk, Depth, QueryText, MultiSearchFrom, Resolve, SpaceEnd, PathOk, SearchResult, Report,
             Tells;
    DocumentWindow(before, v, after);
    QueryNonEmpty(path);
    PathSearched(b, q, 0, 0, |b|, |before|, v, path);
    SearchResultOf(b, q);
    var r := MultiSearchFrom(b, q, 0, 0, |b|);
    if r.0 == JSONSuccess {
      ReportTells(b, r.1, Resolve(v, path).v);
    }
  }
}
