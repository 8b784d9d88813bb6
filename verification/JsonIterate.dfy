/** Repeated calls of JSON_Iterate enumerate the members of a strict collection. */
module JsonIterate {
  import opened Bytes
  import opened JsonScan
  import opened JsonSearch
  import opened JsonTree
  import opened JsonLookup
  import G = JsonGrammar
  import A = JsonAccept

  /** The result of call number n, when the first call starts from start = next = 0. */
  function Call(b: bytes, n: nat): Iteration {
    if n == 0 then IterateFrom(b, 0, 0)
    else IterateFrom(b, Call(b, n - 1).start, Call(b, n - 1).next)
  }

  /** The entries from number n on. */
  function Drop(e: Entries, n: nat): Entries
    decreases n
  {
    if n == 0 then e
    else match Drop(e, n - 1)
      case NoEntries => NoEntries
      case LastEntry(_, _, _) => NoEntries
      case MoreEntries(_, _, _, _, rest) => rest
  }

  /** A pair tells the label and the value of an entry. */
  ghost predicate PairTells(b: bytes, m: Member, l: Label, v: Value) {
    && Tells(b, m.value, v)
    && match l
       case Unnamed => m.key == None && m.keyLength == 0
       case Named(key, _, _) =>
         m.key.Some? && m.keyLength == |RawKey(key)| && At(b, m.key.value, RawKey(key))
  }

  /** Between calls: start is at the open bracket, next at the entries still to come. */
  ghost predicate Ready(b: bytes, start: nat, next: nat, open: byte, e: Entries) {
    && start < next && IsOpen(open) && EntriesOk(open, e) && EntriesDepth(e) <= MAX_DEPTH
    && start < |b| && b[start] == open
    && At(b, next, EntriesText(e) + [G.CloseOf(open)])
  }

  lemma RestReady(b: bytes, k: nat, open: byte, e: Entries)
    requires e != NoEntries && IsOpen(open) && EntriesOk(open, e) && EntriesDepth(e) <= MAX_DEPTH
    requires e.LastEntry? ==> At(b, k, [G.CloseOf(open)])
    requires e.MoreEntries? ==> At(b, k, EntriesText(e.rest) + [G.CloseOf(open)])
    ensures EntriesOk(open, Drop(e, 1)) && EntriesDepth(Drop(e, 1)) <= MAX_DEPTH
    ensures At(b, k, EntriesText(Drop(e, 1)) + [G.CloseOf(open)])
  {
    assert Drop(e, 0) == e;
    if e.LastEntry? {
      assert Drop(e, 1) == NoEntries;
      assert EntriesText(NoEntries) + [G.CloseOf(open)] == [G.CloseOf(open)];
    }
  }

  lemma IterateArray(b: bytes, start: nat, next: nat)
    requires start < next <= |b| && start < |b| && b[start] == LSQUARE
    ensures IterateFrom(b, start, next) ==
            match ValueEnd(b, next)
            case None => Iteration(JSONNotFound, start, next, None)
            case Some(e) => Iteration(JSONSuccess, start, CommaEnd(b, e).1,
                                      Some(Member(None, 0, Report(b, next, e - next))))
  {
    hide ValueEnd, CommaEnd, Report, MemberAt;
  }

  lemma IterateObject(b: bytes, start: nat, next: nat)
    requires start < next <= |b| && start < |b| && b[start] == LBRACE
    ensures IterateFrom(b, start, next) ==
            match MemberAt(b, next)
            case None => Iteration(JSONNotFound, start, next, None)
            case Some(m) =>
              Iteration(JSONSuccess, start, CommaEnd(b, m.end).1,
                        Some(Member(Some(m.key), m.keyLength, Report(b, m.value, m.end - m.value))))
  {
    hide ValueEnd, CommaEnd, Report, MemberAt;
  }

  lemma ElementYielded(b: bytes, start: nat, next: nat, e: Entries) returns (k: nat)
    requires Ready(b, start, next, LSQUARE, e) && e != NoEntries
    ensures var r := IterateFrom(b, start, next);
            r.status == JSONSuccess && r.start == start && r.next == k
            && r.pair.Some? && PairTells(b, r.pair.value, e.name, e.v)
    ensures next <= k
    ensures e.LastEntry? ==> At(b, k, [G.CloseOf(LSQUARE)])
    ensures e.MoreEntries? ==> At(b, k, EntriesText(e.rest) + [G.CloseOf(LSQUARE)])
  {
    hide At, EntriesText, EntriesOk, EntriesDepth, ValueEnd, CommaEnd, ValueText, ValueOk, Tells, Report, LabelText,
             IterateFrom;
    EntryParts(LSQUARE, e);
    var at := EntrySkipped(b, next, LSQUARE, e);
    UnnamedText(e.name);
    AtLength(b, next, EntriesText(e) + [G.CloseOf(LSQUARE)]);
    IterateArray(b, start, next);
    ReportTells(b, next, e.v);
    k := at.k;
  }

  lemma RawKeyAt(b: bytes, i: nat, key: bytes)
    requires At(b, i, key) && |key| >= 2
    ensures At(b, i + 1, RawKey(key)) && |RawKey(key)| == |key| - 2
  {
    AtInner(b, i, key);
  }

  lemma MemberYielded(b: bytes, start: nat, next: nat, e: Entries) returns (k: nat)
    requires Ready(b, start, next, LBRACE, e) && e != NoEntries
    ensures var r := IterateFrom(b, start, next);
            r.status == JSONSuccess && r.start == start && r.next == k
            && r.pair.Some? && PairTells(b, r.pair.value, e.name, e.v)
    ensures next <= k
    ensures e.LastEntry? ==> At(b, k, [G.CloseOf(LBRACE)])
    ensures e.MoreEntries? ==> At(b, k, EntriesText(e.rest) + [G.CloseOf(LBRACE)])
  {
    hide At, EntriesText, EntriesOk, EntriesDepth, ValueEnd, CommaEnd, ValueText, ValueOk, Tells, Report, LabelText,
      IterateFrom, MemberAt, LabelOk, RawKey;
    EntryParts(LBRACE, e);
    var at := EntrySkipped(b, next, LBRACE, e);
    MemberFound(b, next, e.name, at.p);
    RawKeyAt(b, next, e.name.key);
    AtLength(b, next, EntriesText(e) + [G.CloseOf(LBRACE)]);
    IterateObject(b, start, next);
    ReportTells(b, at.v, e.v);
    k := at.k;
  }

  /** One call yields the first remaining entry and moves next behind it. */
  lemma EntryYielded(b: bytes, start: nat, next: nat, open: byte, e: Entries)
    requires Ready(b, start, next, open, e) && e != NoEntries
    ensures var r := IterateFrom(b, start, next);
            r.status == JSONSuccess && r.pair.Some? && PairTells(b, r.pair.value, e.name, e.v)
            && Ready(b, r.start, r.next, open, Drop(e, 1))
  {
    hide At, EntriesText, EntriesOk, EntriesDepth, PairTells, IterateFrom, Drop;
    var k;
    if open == LSQUARE {
      k := ElementYielded(b, start, next, e);
    } else {
      k := MemberYielded(b, start, next, e);
    }
    RestReady(b, k, open, e);
  }

  /** With no entry left a call reports JSONNotFound and changes nothing. */
  lemma NothingYielded(b: bytes, start: nat, next: nat, open: byte)
    requires Ready(b, start, next, open, NoEntries)
    ensures IterateFrom(b, start, next) == Iteration(JSONNotFound, start, next, None)
  {
    EntriesStart(b, next, open, NoEntries);
    hide IterateFrom, MemberAt, ValueEnd, CommaEnd, At, EntriesText, EntriesOk;
    NoMember(b, next);
    if open == LSQUARE { IterateArray(b, start, next); } else { IterateObject(b, start, next); }
  }

  lemma FirstCall(b: bytes, s: nat, next: nat)
    requires SpaceEnd(b, 0) == s < |b| && SpaceEnd(b, s + 1) == next <= |b| && SpaceEnd(b, s) == s
    ensures IterateFrom(b, 0, 0) == IterateFrom(b, s, next)
  {
    hide ValueEnd, MemberAt, CommaEnd, SpaceEnd;
  }

  lemma StartReady(before: bytes, v: Value, after: bytes) returns (s: nat, next: nat)
    requires G.AllSpace(before) && v.Container? && ValueOk(v) && Depth(v) <= MAX_DEPTH
    ensures var b := before + (ValueText(v) + after);
            Ready(b, s, next, v.open, v.entries) && IterateFrom(b, 0, 0) == IterateFrom(b, s, next)
  {
    var b := before + (ValueText(v) + after);
    hide At, ValueText, SpaceEnd, EntriesText, EntriesOk, EntriesDepth, IterateFrom;
    DocumentWindow(before, v, after);
    s := |before|;
    next := SpaceEnd(b, s + 1);
    ContainerSearched(b, s, v);
    ContainerStart(b, s, v);
    AtLength(b, next, EntriesText(v.entries) + [G.CloseOf(v.open)]);
    A.NoSpace(b, s);
    FirstCall(b, s, next);
  }

  lemma DropStep(e: Entries, n: nat)
    ensures Drop(e, n + 1) == Drop(Drop(e, n), 1)
  {
    assert Drop(Drop(e, n), 0) == Drop(e, n);
  }

  /** Call number n yields entry number n, or JSONNotFound once all have been yielded. */
  ghost predicate Yields(b: bytes, r: Iteration, e: Entries) {
    if e == NoEntries then r.status == JSONNotFound && r.pair == None
    else r.status == JSONSuccess && r.pair.Some? && PairTells(b, r.pair.value, e.name, e.v)
  }

  lemma CallStep(b: bytes, n: nat)
    ensures Call(b, n + 1) == IterateFrom(b, Call(b, n).start, Call(b, n).next)
  {
    hide IterateFrom;
  }

  lemma CallZero(b: bytes)
    ensures Call(b, 0) == IterateFrom(b, 0, 0)
  {
    hide IterateFrom;
  }

  lemma Yielded(b: bytes, start: nat, next: nat, open: byte, e: Entries)
    requires Ready(b, start, next, open, e)
    ensures var r := IterateFrom(b, start, next); Yields(b, r, e) && Ready(b, r.start, r.next, open, Drop(e, 1))
  {
    hide IterateFrom, PairTells, Ready;
    if e == NoEntries {
      NothingYielded(b, start, next, open);
      assert Drop(e, 1) == NoEntries by { assert Drop(e, 0) == e; }
    } else {
      EntryYielded(b, start, next, open, e);
    }
  }

  lemma {:induction false} CallYields(before: bytes, v: Value, after: bytes, n: nat)
    requires G.AllSpace(before) && v.Container? && ValueOk(v) && Depth(v) <= MAX_DEPTH
    ensures var b := before + (ValueText(v) + after);
            Yields(b, Call(b, n), Drop(v.entries, n))
            && Ready(b, Call(b, n).start, Call(b, n).next, v.open, Drop(v.entries, n + 1))
    decreases n
  {
    var b := before + (ValueText(v) + after);
    hide IterateFrom, Yields, Ready, Call, Drop, ValueText;
    DropStep(v.entries, n);
    if n == 0 {
      var s, next := StartReady(before, v, after);
      CallZero(b);
      DropNone(v.entries);
      Yielded(b, s, next, v.open, v.entries);
    } else {
      CallYields(before, v, after, n - 1);
      CallStep(b, n - 1);
      Yielded(b, Call(b, n - 1).start, Call(b, n - 1).next, v.open, Drop(v.entries, n));
    }
  }

  lemma DropNone(e: Entries)
    ensures Drop(e, 0) == e
  {
  }

  /** On a strict collection nested at most MAX_DEPTH deep, the n-th call of JSON_Iterate
      yields exactly the n-th member, for every n, and JSONNotFound for ever afterwards. */
  lemma IteratorEnumerates(before: bytes, v: Value, after: bytes, n: nat)
    requires G.AllSpace(before) && v.Container? && ValueOk(v) && Depth(v) <= MAX_DEPTH
    ensures var b := before + (ValueText(v) + after);
            Yields(b, Call(b, n), Drop(v.entries, n))
  {
    hide Ready, Call, Yields, Drop, ValueText, ValueOk;
    CallYields(before, v, after, n);
  }
}
