/** The parser and its callbacks as objects that share the response buffer: source/corehttp/llhttp.c
    (llhttp__internal__run and llhttp__internal_execute) and the callbacks of
    source/corehttp/core_http_client.cpp. Pointers into the buffer are indices. */
module HttpParser {
  import opened Bytes
  import opened Llhttp
  import opened HttpContext
  import opened HttpSpan
  import opened HttpBulk

  lemma MovedPrefix(b: bytes, n: nat, dest: nat, src: nat, len: nat)
    requires dest <= src && src + len <= n <= |b|
    ensures Moved(b, dest, src, len)[..n] == Moved(b[..n], dest, src, len)
    ensures Moved(b, dest, src, len)[src + len..] == b[src + len..]
  {
    assert b[..n][src..src + len] == b[src..src + len];
    assert b[..n][..dest] == b[..dest];
    assert b[dest + len..][..n - dest - len] == b[..n][dest + len..];
  }

  lemma SliceOfPrefix(b: bytes, n: nat, loc: nat, len: nat)
    requires loc + len <= n <= |b|
    ensures Slice(b[..n], loc, len) == b[loc..loc + len]
  {
    assert b[..n][loc..loc + len] == b[loc..loc + len];
  }

  lemma BodyIs(x: Context, loc: nat, len: nat)
    ensures var start := if x.body.None? then loc else x.body.value;
            var next := if x.body.None? then loc else x.body.value + x.bodyLen;
            HttpContext.OnBody(x, loc, len) ==
            x.(body := Some(start), bodyLen := next - start + len,
               buf := if loc > next then Moved(x.buf, next, loc, len) else x.buf)
  {
    hide Moved;
  }

  lemma BodyBefore(x: Context, loc: nat)
    requires Within(x, loc)
    ensures x.body.Some? ==> x.body.value + x.bodyLen <= loc
  {
  }

  lemma CompleteIs(x: Context)
    ensures CompleteHeader(x) == if x.field.Some? && x.value.Some? then
              x.(headerCount := x.headerCount + 1,
                 reported := x.reported + [Reported(Slice(x.buf, x.field.value, x.fieldLen),
                                                    Slice(x.buf, x.value.value, x.valueLen), x.statusCode)],
                 field := None, fieldLen := 0, value := None, valueLen := 0)
            else x
  {
    hide Slice;
  }

  lemma HeaderWithin(x: Context, n: nat)
    requires Within(x, n)
    ensures x.field.Some? ==> x.field.value + x.fieldLen <= n
    ensures x.value.Some? ==> x.value.value + x.valueLen <= n
  {
  }

  /** memmove to a lower address */
  method MemMove(a: array<byte>, dest: nat, src: nat, n: nat)
    requires dest <= src && src + n <= a.Length
    modifies a
    ensures a[..] == Moved(old(a[..]), dest, src, n)
  {
    hide Moved;
    var i := 0;
    while i < n
      invariant i <= n
      invariant forall k | 0 <= k < a.Length :: a[k] == MovedByte(old(a[..]), dest, src, i, k)
    {
      a[dest + i] := a[src + i];
      i := i + 1;
    }
    MovedIs(old(a[..]), dest, src, n, a[..]);
  }

  /** HTTPParsingContext_t and the HTTPResponse_t it fills in. */
  class Response {
    const buffer: array<byte>
    const isHeadResponse: bool
    var parsing: Parsing
    var statusCode: nat
    var headers: Option<nat>
    var field: Option<nat>
    var fieldLen: nat
    var value: Option<nat>
    var valueLen: nat
    var headerCount: nat
    var reported: seq<Reported>
    var contentLength: nat
    var closeFlag: bool
    var keepAliveFlag: bool
    var body: Option<nat>
    var bodyLen: nat
    var completions: nat

    constructor (buffer: array<byte>, isHeadResponse: bool)
      ensures this.buffer == buffer && this.isHeadResponse == isHeadResponse
      ensures View(0) == NEW_CONTEXT
    {
      this.buffer := buffer;
      this.isHeadResponse := isHeadResponse;
      parsing, statusCode, headers := HTTP_PARSING_NONE, 0, None;
      field, fieldLen, value, valueLen := None, 0, None, 0;
      headerCount, reported, contentLength := 0, [], 0;
      closeFlag, keepAliveFlag, body, bodyLen, completions := false, false, None, 0, 0;
    }

    /** The response when n bytes of the buffer have been parsed. */
    ghost function View(n: nat): (x: Context)
      requires n <= buffer.Length
      reads this, buffer
      ensures |x.buf| == n
    {
      Context(parsing, statusCode, headers, field, fieldLen, value, valueLen, headerCount, reported, contentLength,
              closeFlag, keepAliveFlag, body, bodyLen, completions, buffer[..n])
    }

    lemma ViewAfter(p: nat, q: nat)
      requires p <= q <= buffer.Length
      ensures View(q) == After(View(p), buffer[p..q])
    {
      assert buffer[..p] + buffer[p..q] == buffer[..q];
    }

    lemma ViewGrows(p: nat)
      requires p < buffer.Length
      ensures View(p + 1) == Grow(View(p), buffer[p]) && |View(p).buf| == p
    {
      assert buffer[..p + 1] == buffer[..p] + [buffer[p]];
    }

    lemma FieldOfView(n: nat)
      requires n <= buffer.Length
      ensures View(n).field == field && View(n).buf == buffer[..n]
    {
    }

    method ProcessCompleteHeader(ghost n: nat)
      requires n <= buffer.Length && Within(View(n), n)
      modifies this
      ensures View(n) == CompleteHeader(old(View(n)))
    {
      ghost var x := View(n);
      HeaderTexts(n);
      hide Within, Slice, CompleteHeader;
      CompleteIs(x);
      if field.Some? && value.Some? {
        headerCount := headerCount + 1;
        reported := reported + [Reported(buffer[field.value..field.value + fieldLen],
                                         buffer[value.value..value.value + valueLen], statusCode)];
        field := None;
        fieldLen := 0;
        value := None;
        valueLen := 0;
      }
    }

    lemma HeaderTexts(n: nat)
      requires n <= buffer.Length && Within(View(n), n)
      ensures field.Some? ==>
                field.value + fieldLen <= n
                && Slice(buffer[..n], field.value, fieldLen) == buffer[field.value..field.value + fieldLen]
      ensures value.Some? ==>
                value.value + valueLen <= n
                && Slice(buffer[..n], value.value, valueLen) == buffer[value.value..value.value + valueLen]
    {
      HeaderWithin(View(n), n);
      hide Within, Slice;
      assert buffer[..][..n] == buffer[..n];
      if field.Some? {
        SliceOfPrefix(buffer[..], n, field.value, fieldLen);
      }
      if value.Some? {
        SliceOfPrefix(buffer[..], n, value.value, valueLen);
      }
    }

    method OnMessageBegin(ghost n: nat)
      requires n <= buffer.Length
      modifies this
      ensures View(n) == old(View(n)).(parsing := HTTP_PARSING_INCOMPLETE)
    {
      parsing := HTTP_PARSING_INCOMPLETE;
    }

    method OnMessageComplete(ghost n: nat)
      requires n <= buffer.Length
      modifies this
      ensures View(n) == old(View(n)).(parsing := HTTP_PARSING_COMPLETE, completions := old(completions) + 1)
    {
      parsing := HTTP_PARSING_COMPLETE;
      completions := completions + 1;
    }

    method OnStatus(code: nat, ghost n: nat)
      requires n <= buffer.Length
      modifies this
      ensures View(n) == HttpContext.OnStatus(old(View(n)), code)
    {
      field := None;
      fieldLen := 0;
      value := None;
      valueLen := 0;
      statusCode := code;
    }

    method OnHeaderField(loc: nat, len: nat, ghost n: nat)
      requires loc + len <= n <= buffer.Length && Within(View(n), loc)
      modifies this
      ensures View(n) == HttpContext.OnHeaderField(old(View(n)), loc, len)
    {
      if headers == None {
        headers := Some(loc);
      }
      ProcessCompleteHeader(n);
      if field == None {
        field := Some(loc);
        fieldLen := len;
      } else {
        fieldLen := fieldLen + len;
      }
    }

    method OnHeaderValue(loc: nat, len: nat, ghost n: nat)
      requires loc + len <= n <= buffer.Length && field.Some?
      modifies this
      ensures View(n) == HttpContext.OnHeaderValue(old(View(n)), loc, len)
    {
      if value == None {
        value := Some(loc);
        valueLen := len;
      } else {
        valueLen := valueLen + len;
      }
      assert field.Some?;
    }

    method OnHeadersComplete(length: nat, flags: Flags, ghost n: nat)
      requires n <= buffer.Length && Within(View(n), n)
      modifies this
      ensures View(n) == HttpContext.OnHeadersComplete(old(View(n)), length, flags)
    {
      if length != MAX_UINT64 {
        contentLength := length % SIZE_T_MODULUS;
      } else {
        contentLength := 0;
      }
      if flags.close {
        closeFlag := true;
      }
      if flags.keepAlive {
        keepAliveFlag := true;
      }
      ProcessCompleteHeader(n);
    }

    /** No byte at or after the end of the piece is written. */
    method OnBody(loc: nat, len: nat, ghost n: nat)
      requires loc + len <= n <= buffer.Length && Within(View(n), loc)
      modifies this, buffer
      ensures View(n) == HttpContext.OnBody(old(View(n)), loc, len)
      ensures buffer[loc + len..] == old(buffer[loc + len..])
    {
      ghost var x := View(n);
      BodyIs(x, loc, len);
      BodyBefore(x, loc);
      hide Within, Moved, HttpContext.OnBody;
      if body == None {
        body := Some(loc);
        bodyLen := 0;
      }
      var nextWriteLoc := body.value + bodyLen;
      if loc > nextWriteLoc {
        MoveDown(nextWriteLoc, loc, len, n);
      }
      bodyLen := bodyLen + len;
    }

    /** The bytes of a piece are moved down, where nothing behind the piece is touched. */
    method MoveDown(dest: nat, loc: nat, len: nat, ghost n: nat)
      requires dest <= loc && loc + len <= n <= buffer.Length
      modifies buffer
      ensures buffer[..n] == Moved(old(buffer[..n]), dest, loc, len) && buffer[loc + len..] == old(buffer[loc + len..])
    {
      hide Moved;
      ghost var b := buffer[..];
      MovedPrefix(b, n, dest, loc, len);
      assert b[..n] == buffer[..n] && b[loc + len..] == buffer[loc + len..];
      MemMove(buffer, dest, loc, len);
      assert buffer[..][..n] == buffer[..n];
      assert buffer[..][loc + len..] == buffer[loc + len..];
    }

    /** The callback that belongs to a span, for len bytes at loc. */
    method OnPiece(k: Kind, loc: nat, len: nat, ghost n: nat)
      requires loc + len <= n <= buffer.Length && Within(View(n), loc) && (k == Value ==> field.Some?)
      modifies this, buffer
      ensures View(n) == HttpContext.OnPiece(old(View(n)), k, loc, len)
      ensures buffer[loc + len..] == old(buffer[loc + len..])
    {
      match k
      case Status(code) => OnStatus(code, n);
      case Field => OnHeaderField(loc, len, n);
      case Value => OnHeaderValue(loc, len, n);
      case Body => OnBody(loc, len, n);
    }
  }

  datatype MatchStatus = MatchComplete | MatchPause | MatchMismatch

  /** llhttp_t, attached to the response its callbacks fill in. */
  class Parser {
    const data: Response
    var node: Node
    var index: nat
    var contentLength: nat
    var flags: Flags
    var headerState: nat
    var statusCode: nat
    var httpMajor: nat
    var httpMinor: nat
    var finish: nat
    var upgrade: bool
    var error: nat
    /** The start of the open span, or NULL. */
    var spanPos: Option<nat>

    /** llhttp_init */
    constructor (data: Response)
      ensures this.data == data && State() == Init(data.isHeadResponse) && spanPos == None
    {
      this.data := data;
      node, index, contentLength, flags, headerState := InLine(Start), 0, 0, NO_FLAGS, 0;
      statusCode, httpMajor, httpMinor, finish, upgrade, error := 0, 0, 0, 0, false, 0;
      spanPos := None;
    }

    function State(): State
      reads this
    {
      Llhttp.State.State(node, index, contentLength, flags, headerState, statusCode, httpMajor, httpMinor, finish,
                         upgrade, error, data.isHeadResponse)
    }

    method SetState(s: State)
      requires s.head == data.isHeadResponse
      modifies this
      ensures State() == s && spanPos == old(spanPos)
    {
      node, index, contentLength, flags, headerState := s.node, s.index, s.contentLength, s.flags, s.headerState;
      statusCode, httpMajor, httpMinor := s.statusCode, s.httpMajor, s.httpMinor;
      finish, upgrade, error := s.finish, s.upgrade, s.error;
    }

    lemma StateIs()
      ensures State() ==
              Llhttp.State.State(node, index, contentLength, flags, headerState, statusCode, httpMajor, httpMinor,
                                 finish,
                                            upgrade, error, data.isHeadResponse)
    {
    }

    ghost function From(p: nat): nat
      reads this
    {
      if spanPos.Some? then spanPos.value else p
    }

    /** The automaton stands at p, and the open span started in this call. */
    ghost predicate Stands(p: nat)
      reads this, data, data.buffer
    {
      && p <= data.buffer.Length
      && From(p) <= p
      && (spanPos.Some? <==> SpanOf(State()).Some?)
      && Cut(State(), data.View(p), From(p))
    }

    /** What feeding the bytes before p one by one leads to. */
    ghost function Fed(p: nat): System
      requires p <= data.buffer.Length
      reads this, data, data.buffer
    {
      Virtual(State(), data.View(p), From(p))
    }

    /** The match functions of llhttp: compare the input with the rest of a word. */
    method MatchSequence(p: nat, endp: nat, word: bytes, folding: Folding) returns (status: MatchStatus, current: nat)
      requires p <= endp <= data.buffer.Length && index < |word|
      modifies this`index
      ensures p <= current <= endp && old(index) + current - p <= |word|
      ensures forall j | p <= j < current :: Folded(folding, data.buffer[j]) == word[old(index) + j - p]
      ensures match status
              case MatchPause => current == endp && index == old(index) + endp - p && index < |word|
              case MatchComplete =>
                && current < endp && index == 0 && old(index) + current - p + 1 == |word|
                && Folded(folding, data.buffer[current]) == word[|word| - 1]
              case MatchMismatch =>
                && current < endp && index == 0 && old(index) + current - p < |word|
                && Folded(folding, data.buffer[current]) != word[old(index) + current - p]
    {
      var i := index;
      current := p;
      while current < endp
        invariant p <= current <= endp && i == old(index) + current - p && i < |word|
        invariant forall j | p <= j < current :: Folded(folding, data.buffer[j]) == word[old(index) + j - p]
      {
        if Folded(folding, data.buffer[current]) == word[i] {
          i := i + 1;
          if i == |word| {
            index := 0;
            return MatchComplete, current;
          }
        } else {
          index := 0;
          return MatchMismatch, current;
        }
        current := current + 1;
      }
      index := i;
      status := MatchPause;
    }
  
    /** The callbacks that are not tied to a span. */
    method NotifyAll(items: seq<Item>, ghost from: nat, p: nat, ghost n: nat)
      requires Notices(items) && n <= data.buffer.Length && Within(data.View(n), n)
      modifies data
      ensures data.View(n) == Perform(old(data.View(n)), items, from, p)
    {
      var rest := items;
      while rest != []
        invariant Notices(rest) && Within(data.View(n), n)
        invariant Perform(data.View(n), rest, from, p) == Perform(old(data.View(n)), items, from, p)
        decreases |rest|
      {
        ghost var x := data.View(n);
        NoticesWithin(x, [rest[0]], from, p);
        match rest[0] {
          case Begin => data.OnMessageBegin(n);
          case HeadersDone(length, flags) => data.OnHeadersComplete(length, flags, n);
          case Done => data.OnMessageComplete(n);
          case _ =>
        }
        assert data.View(n) == PerformOne(x, rest[0], from, p);
        rest := rest[1..];
      }
    }

    /** The callbacks of one dispatch at p: the span is closed first. */
    method PerformAll(items: seq<Item>, p: nat, ghost n: nat)
      requires n <= data.buffer.Length && Within(data.View(n), From(p))
      requires Orderly(items, From(p), p, n, data.field.Some?)
      modifies this`spanPos, data, data.buffer
      ensures data.View(n) == Perform(old(data.View(n)), items, old(From(p)), p)
      ensures data.buffer[n..] == old(data.buffer[n..])
      ensures spanPos == if SkipEnds(items) then None else old(spanPos)
    {
      hide *;
      ghost var from, x := From(p), data.View(n);
      FromCases(p);
      PerformStarts(x, items, from, p, n, data.field.Some?);
      var rest := SkipData(items);
      if rest != [] && rest[0].End? {
        var start := if spanPos.Some? then spanPos.value else p;
        var kind, len := rest[0].kind, p + rest[0].after - start;
        data.FieldOfView(n);
        PieceWithin(x, kind, start, len);
        data.OnPiece(kind, start, len, n);
        MoreWithin(data.View(n), start + len, n);
        spanPos := None;
        rest := rest[1..];
      } else {
        MoreWithin(x, from, n);
      }
      NotifyAll(rest, from, p, n);
    }

    lemma FromCases(p: nat)
      ensures From(p) == if spanPos.Some? then spanPos.value else p
    {
    }

    /** One label of the automaton on the byte at p. */
    method Dispatch(p: nat) returns (eaten: bool)
      requires p < data.buffer.Length && error == 0 && Stands(p)
      modifies this, data, data.buffer
      ensures State() == old(Step(State(), data.buffer[p]).s) && eaten == old(Step(State(), data.buffer[p]).eaten)
      ensures data.buffer[p + 1..] == old(data.buffer[p + 1..])
      ensures error == 0 && !eaten ==> data.buffer[p] == old(data.buffer[p])
      ensures error == 0 ==>
                var q := if eaten then p + 1 else p;
                && data.View(q) == old(DispatchContext(State(), data.View(p), From(p), data.buffer[p]))
                && From(q) == old(DispatchFrom(State(), data.View(p), From(p), data.buffer[p]))
                && (spanPos.Some? <==> SpanOf(State()).Some?) && From(q) <= q
                && (spanPos.Some? ==> spanPos.value <= p)
    {
      ghost var s, x, from := State(), data.View(p), From(p);
      DispatchIs(s, x, from, data.buffer[p]);
      hide Step, Within, Perform, SpanOf, Orderly, SkipEnds, DispatchContext, DispatchFrom, Kept;
      var c := data.buffer[p];
      var o := Step(State(), c);
      ghost var n := if o.eaten || o.s.error != 0 then p + 1 else p;
      StepOrderly(s, x, from, c, n);
      HeadKept(s, c);
      GrowWithin(x, from, c);
      data.ViewGrows(p);
      Act(o, p, n);
      eaten := o.eaten;
    }

    /** The new state, the callbacks, and a span that opens at p. */
    method Act(o: Out, p: nat, ghost n: nat)
      requires p <= n <= data.buffer.Length && o.s.head == data.isHeadResponse
      requires Within(data.View(n), From(p)) && Orderly(o.items, From(p), p, n, data.field.Some?)
      modifies this, data, data.buffer
      ensures State() == o.s && data.View(n) == Perform(old(data.View(n)), o.items, old(From(p)), p)
      ensures data.buffer[n..] == old(data.buffer[n..])
      ensures spanPos == if (SkipEnds(o.items) || old(spanPos) == None) && SpanOf(o.s).Some? then Some(p)
                         else if SkipEnds(o.items) then None else old(spanPos)
    {
      hide *;
      FromCases(p);
      SetState(o.s);
      StateIs();
      FromCases(p);
      PerformAll(o.items, p, n);
      if spanPos == None && SpanOf(o.s).Some? {
        spanPos := Some(p);
      }
      StateIs();
    }

    /** At p the rest of the input leads to goal, or an error has been found on the way to it. */
    ghost predicate Tracks(p: nat, endp: nat, goal: System)
      reads this, data, data.buffer
    {
      && p <= endp <= data.buffer.Length
      && if error == 0 then
           && Stands(p)
           && (spanPos.Some? && p < endp ==> spanPos.value < endp)
           && Inv(Fed(p).parser)
           && AbsorbAll(Fed(p), data.buffer[p..endp]) == goal
         else State() == goal.parser
    }

    /** One dispatch keeps the goal. */
    method DispatchToward(p: nat, endp: nat, ghost goal: System) returns (eaten: bool)
      requires p < endp && error == 0 && Tracks(p, endp, goal)
      modifies this, data, data.buffer
      ensures var q := if error == 0 && eaten then p + 1 else p;
              && Tracks(q, endp, goal)
              && (error == 0 ==> data.buffer[q..] == old(data.buffer[q..]))
              && (error == 0 && spanPos.Some? ==> spanPos.value < endp)
              && (error == 0 && !eaten ==> Rank(node) < old(Rank(node)))
      ensures data.buffer[endp..] == old(data.buffer[endp..])
    {
      hide Step, Within, Perform, SpanOf, AbsorbAll, Cut, Rank;
      ghost var s, x, from, t := State(), data.View(p), From(p), data.buffer[p..endp];
      FeedOne(s, x, from, t);
      StepKeeps(s, t[0]);
      eaten := Dispatch(p);
      TailSlices(data.buffer[..], old(data.buffer[..]), p, endp);
    }

    /** The lagging pair at q is on the way to goal. */
    lemma Arrived(q: nat, endp: nat, goal: System, w: State, y: Context, f: nat)
      requires q <= endp <= data.buffer.Length && error == 0
      requires State() == w && data.View(q) == y && From(q) == f && Cut(w, y, f)
      requires (spanPos.Some? <==> SpanOf(w).Some?) && f <= q && (spanPos.Some? && q < endp ==> spanPos.value < endp)
      requires Inv(Virtual(w, y, f).parser) && AbsorbAll(Virtual(w, y, f), data.buffer[q..endp]) == goal
      ensures Tracks(q, endp, goal)
    {
      hide SpanOf, AbsorbAll, Cut, Virtual, Inv;
    }

    /** Nodes inside a known word: the whole input is compared at once. */
    method MatchWord(p: nat, endp: nat) returns (status: MatchStatus, current: nat)
      requires p < endp <= data.buffer.Length && node.InMatch? && index < |Sequence(node.word)|
      modifies this
      ensures p <= current <= endp && spanPos == old(spanPos)
      ensures var s, t, m := old(State()), data.buffer[p..endp], current - p;
              && Continues(s, t[..m])
              && if status == MatchPause then current == endp && State() == s.(index := s.index + m)
                 else
                   var matched := status == MatchComplete;
                   && current < endp && State() == Settled(s.(index := 0), matched)
                   && (matched <==> Folded(FoldingOf(s.node.word), t[m]) == Sequence(s.node.word)[s.index + m])
                   && (matched ==> s.index + m + 1 == |Sequence(s.node.word)|)
    {
      hide Matched, Mismatched, Sequence, Folded, FoldingOf, Continues;
      ghost var s, t := State(), data.buffer[p..endp];
      var word := node.word;
      status, current := MatchSequence(p, endp, Sequence(word), FoldingOf(word));
      forall j | 0 <= j < current - p ensures Folded(FoldingOf(word), t[j]) == Sequence(word)[s.index + j] {
        assert t[j] == data.buffer[p + j];
      }
      MatchContinues(s, t, current - p);
      if status != MatchPause {
        SettledHead(State(), status == MatchComplete);
        SetState(if status == MatchComplete then Matched(State(), word) else Mismatched(State(), word).s);
      }
    }

    lemma PauseArrives(p: nat, endp: nat, goal: System, s: State, x: Context, from: nat, t: bytes)
      requires p < endp <= data.buffer.Length && data.View(p) == x && t == data.buffer[p..endp]
      requires s.node.InMatch? && Continues(s, t) && State() == s.(index := s.index + |t|)
      requires Cut(s, x, from) && From(p) == from <= p && (spanPos.Some? <==> SpanOf(s).Some?)
      requires Inv(Virtual(s, x, from).parser) && AbsorbAll(Virtual(s, x, from), t) == goal
      ensures Tracks(endp, endp, goal)
    {
      hide SpanOf, AbsorbAll, Cut, Virtual, After, Continues, Inv, Tracks;
      MatchedRun(s, x, from, t);
      data.ViewAfter(p, endp);
      CutVirtual(State(), data.View(endp), From(endp));
      assert data.buffer[endp..endp] == [];
      Arrived(endp, endp, goal, State(), data.View(endp), From(endp));
    }

    lemma FromMoves(p: nat, q: nat, s: State, x: Context, from: nat)
      requires p <= q && |x.buf| == p && From(p) == from <= p && (spanPos.Some? <==> SpanOf(s).Some?)
      ensures From(q) == FromAfter(s, x, from, q - p) <= q && State().error == error && State().node == node
      ensures spanPos.Some? ==> spanPos.value <= p
    {
      hide SpanOf;
    }

    lemma SettleArrives(p: nat, endp: nat, goal: System, s: State, x: Context, from: nat, t: bytes, m: nat,
                        matched: bool)
      requires p < endp <= data.buffer.Length && data.View(p) == x && t == data.buffer[p..endp]
      requires s.node.InMatch? && m < |t| && Continues(s, t[..m]) && State() == Settled(s.(index := 0), matched)
      requires matched <==> Folded(FoldingOf(s.node.word), t[m]) == Sequence(s.node.word)[s.index + m]
      requires matched ==> s.index + m + 1 == |Sequence(s.node.word)|
      requires Cut(s, x, from) && From(p) == from <= p && (spanPos.Some? <==> SpanOf(s).Some?)
      requires Inv(Virtual(s, x, from).parser) && AbsorbAll(Virtual(s, x, from), t) == goal
      ensures Tracks(if matched then p + m + 1 else p + m, endp, goal)
      ensures error == 0 && !matched ==> Rank(node) < Rank(s.node)
    {
      hide *;
      var q := if matched then p + m + 1 else p + m;
      MatchFed(s, x, from, t, m, matched);
      data.ViewAfter(p, q);
      assert t[..q - p] == data.buffer[p..q] && t[q - p..] == data.buffer[q..endp];
      FromMoves(p, q, s, x, from);
      if error == 0 {
        Arrived(q, endp, goal, State(), data.View(q), From(q));
      } else {
        Failed(q, endp, goal);
      }
    }

    lemma Failed(q: nat, endp: nat, goal: System)
      requires error != 0 && State() == goal.parser && q <= endp <= data.buffer.Length
      ensures Tracks(q, endp, goal)
    {
      hide AbsorbAll, Cut;
    }

    method MatchToward(p: nat, endp: nat, ghost goal: System) returns (q: nat)
      requires p < endp && error == 0 && node.InMatch? && Tracks(p, endp, goal)
      modifies this
      ensures Tracks(q, endp, goal) && p <= q && (spanPos.Some? ==> spanPos.value < endp)
      ensures error == 0 && q == p ==> Rank(node) < old(Rank(node))
    {
      hide SpanOf, AbsorbAll, Cut, Rank, Settled, Sequence, Folded, FoldingOf, Virtual, After, Continues, Inv;
      ghost var s, x, from, t := State(), data.View(p), From(p), data.buffer[p..endp];
      IndexInWord(s, x, from);
      var status, current := MatchWord(p, endp);
      q := if status == MatchComplete then current + 1 else current;
      if status == MatchPause {
        assert t[..current - p] == t;
        PauseArrives(p, endp, goal, s, x, from, t);
      } else {
        SettleArrives(p, endp, goal, s, x, from, t, current - p, status == MatchComplete);
      }
    }

    /** A body of known length: everything available is consumed at once. */
    method ConsumeToward(p: nat, endp: nat, ghost goal: System) returns (q: nat)
      requires p < endp && error == 0 && Consuming(State()) && Tracks(p, endp, goal)
      modifies this, data, data.buffer
      ensures Tracks(q, endp, goal) && p < q && (spanPos.Some? ==> spanPos.value < endp)
      ensures data.buffer[q..] == old(data.buffer[q..])
    {
      hide SpanOf, AbsorbAll, Cut, Virtual, After, Inv, Within, MessageComplete;
      ghost var s, x, from, t := State(), data.View(p), From(p), data.buffer[p..endp];
      var avail, need := endp - p, contentLength;
      if avail >= need {
        BodyFed(s, x, from, t);
        q := p + need;
        data.ViewAfter(p, q);
        assert t[..need] == data.buffer[p..q] && t[need..] == data.buffer[q..endp];
        FinishBody(q);
        assert data.buffer[q..][..endp - q] == data.buffer[q..endp];
        assert old(data.buffer[q..])[..endp - q] == t[need..];
        if error == 0 {
          Arrived(q, endp, goal, State(), data.View(q), From(q));
        }
      } else {
        ConsumedRun(s, x, from, t);
        contentLength := contentLength - avail;
        q := endp;
        data.ViewAfter(p, q);
        CutVirtual(State(), data.View(q), From(q));
        assert data.buffer[q..endp] == [];
        Arrived(q, endp, goal, State(), data.View(q), From(q));
      }
    }

    /** The span of a body or chunk is closed at q, after its last byte. */
    method FinishBody(q: nat)
      requires q <= data.buffer.Length && error == 0 && Consuming(State()) && spanPos.Some? && spanPos.value <= q
      requires Within(data.View(q), spanPos.value)
      modifies this, data, data.buffer
      ensures State() == old(BodyDone(State())) && spanPos == None
      ensures data.View(q) == old(Delivered(State(), data.View(q), spanPos.value))
      ensures data.buffer[q..] == old(data.buffer[q..])
    {
      hide Within, MessageComplete, HttpContext.OnPiece;
      data.OnPiece(Body, spanPos.value, q - spanPos.value, q);
      spanPos := None;
      contentLength := 0;
      if node == InBody(ConsumeContentLength) {
        node := InBody(ChunkDataAlmostDone);
      } else {
        data.OnMessageComplete(q);
        var done := MessageComplete(State());
        CompleteHead(State());
        SetState(done);
      }
    }

    /** The next label: p moves forward, or the label has a smaller rank. */
    method Advance(p: nat, endp: nat, ghost goal: System) returns (q: nat)
      requires p < endp && error == 0 && Tracks(p, endp, goal)
      modifies this, data, data.buffer
      ensures p <= q <= endp <= data.buffer.Length
      ensures Tracks(if error == 0 then q else endp, endp, goal)
      ensures error == 0 && q == p ==> Rank(node) < old(Rank(node))
      ensures error == 0 && spanPos.Some? ==> spanPos.value < endp
      ensures data.buffer[endp..] == old(data.buffer[endp..])
    {
      hide Step, SpanOf, AbsorbAll, Cut, Virtual, Within, Rank, Inv;
      if node.InMatch? {
        q := MatchToward(p, endp, goal);
      } else if Consuming(State()) {
        q := ConsumeToward(p, endp, goal);
      } else {
        var eaten := DispatchToward(p, endp, goal);
        q := if eaten && error == 0 then p + 1 else p;
      }
    }

    /** llhttp__internal__run: until the input ends or an error is found. */
    method Run(start: nat, endp: nat, ghost goal: System)
      requires start <= endp <= data.buffer.Length && error == 0 && Tracks(start, endp, goal)
      modifies this, data, data.buffer
      ensures Tracks(endp, endp, goal)
      ensures error == 0 && spanPos.Some? && start < endp ==> spanPos.value < endp
      ensures start == endp ==> unchanged(this, data, data.buffer)
      ensures data.buffer[endp..] == old(data.buffer[endp..])
    {
      hide *;
      var p := start;
      while p < endp && error == 0
        invariant p <= endp <= data.buffer.Length && (p == start || start < endp)
        invariant error == 0 ==> Tracks(p, endp, goal)
        invariant error != 0 ==> Tracks(endp, endp, goal)
        invariant error == 0 && p == endp && start < endp && spanPos.Some? ==> spanPos.value < endp
        invariant data.buffer[endp..] == old(data.buffer[endp..])
        invariant start == endp ==> unchanged(this, data, data.buffer)
        decreases endp - p, if error == 0 then 1 else 0, Rank(node)
      {
        p := Advance(p, endp, goal);
      }
    }

    /** Between two calls: everything parsed so far has been delivered. */
    ghost predicate Ready(p: nat)
      reads this, data, data.buffer
    {
      && p <= data.buffer.Length
      && Inv(State())
      && (error == 0 ==>
            && (spanPos.Some? <==> SpanOf(State()).Some?)
            && Cut(State(), data.View(p), p)
            && (SpanOf(State()).Some? ==> Begun(data.View(p), SpanOf(State()).value)))
    }

    ghost function Current(p: nat): System
      requires p <= data.buffer.Length
      reads this, data, data.buffer
    {
      System(State(), data.View(p))
    }

    /** The open span is delivered up to the end of the input. */
    method Flush(endp: nat)
      requires error == 0 && Stands(endp) && spanPos.Some?
      requires spanPos.value == endp ==> Begun(data.View(endp), SpanOf(State()).value)
      modifies data, data.buffer
      ensures data.View(endp) == old(Fed(endp)).context
      ensures Ready(endp)
      ensures data.buffer[endp..] == old(data.buffer[endp..])
    {
      hide SpanOf, Within, Begun, Inv, Cut, HttpContext.OnPiece, Extent;
      var kind := SpanOf(State()).value;
      FlushCut(State(), data.View(endp), spanPos.value, kind);
      CutVirtual(State(), data.View(endp), spanPos.value);
      data.OnPiece(kind, spanPos.value, endp - spanPos.value, endp);
    }

    /** llhttp__internal_execute on the bytes [p, endp) of the buffer. It leaves the parser and the
        response as if the bytes had been fed one by one, and touches no byte after them. */
    method Execute(p: nat, endp: nat)
      requires p <= endp && endp <= data.buffer.Length && Ready(p)
      modifies this, data, data.buffer
      ensures Ready(endp)
      ensures State() == old(AbsorbAll(Current(p), data.buffer[p..endp])).parser
      ensures error == 0 ==> Current(endp) == old(AbsorbAll(Current(p), data.buffer[p..endp]))
      ensures data.buffer[endp..] == old(data.buffer[endp..])
    {
      hide SpanOf, AbsorbAll, Cut, Within, Begun, Inv;
      ghost var goal := AbsorbAll(Current(p), data.buffer[p..endp]);
      if error != 0 {
        ErrorStays(Current(p), data.buffer[p..endp]);
        return;
      }
      CutVirtual(State(), data.View(p), p);
      if spanPos != None {
        spanPos := Some(p);
      }
      Run(p, endp, goal);
      if error == 0 {
        assert data.buffer[endp..endp] == [];
        CutVirtual(State(), data.View(endp), From(endp));
      }
      if error == 0 && spanPos != None {
        Flush(endp);
      }
    }
  }

  /** The callbacks of one dispatch: at most the end of the span, and then the others. */
  lemma PerformStarts(x: Context, items: seq<Item>, from: nat, p: nat, n: nat, fieldKnown: bool)
    requires Orderly(items, from, p, n, fieldKnown) && n == |x.buf|
    ensures from <= p <= n
    ensures var r := SkipData(items);
            && Perform(x, items, from, p) == Perform(x, r, from, p)
            && (SkipEnds(items) <==> r != [] && r[0].End?)
            && (!SkipEnds(items) ==> Notices(r))
            && (SkipEnds(items) ==>
                  && Notices(r[1..]) && from <= p + r[0].after <= n && (r[0].kind == Value ==> fieldKnown)
                  && Perform(x, r, from, p) == Perform(OnPiece(x, r[0].kind, from, p + r[0].after - from), r[1..],
                                                       from, p))
  {
    hide OnPiece;
  }

  /** The effect of one dispatch, in terms of its callbacks. */
  lemma DispatchIs(s: State, x: Context, from: nat, c: byte)
    requires Inv(s) && s.error == 0
    ensures var o, y := Step(s, c), DispatchContext(s, x, from, c);
            && y == Perform(if o.eaten then Grow(x, c) else x, o.items, from, |x.buf|)
            && DispatchFrom(s, x, from, c) == (if SpanOf(o.s).Some? then from else |y.buf|)
  {
    hide Step, Perform, SpanOf;
  }

  lemma HeadKept(s: State, c: byte)
    requires Inv(s) && s.error == 0
    ensures Step(s, c).s.head == s.head
  {
    StepKeeps(s, c);
    hide Step;
  }

  lemma CompleteHead(s: State)
    ensures MessageComplete(s).head == s.head
  {
  }

  lemma MatchContinues(s: State, t: bytes, m: nat)
    requires s.node.InMatch? && m <= |t| && s.index + m < |Sequence(s.node.word)|
    requires forall j | 0 <= j < m :: Folded(FoldingOf(s.node.word), t[j]) == Sequence(s.node.word)[s.index + j]
    ensures Continues(s, t[..m])
    ensures m == |t| ==> Continues(s, t)
  {
    hide Folded, Sequence, FoldingOf;
    assert m == |t| ==> t[..m] == t;
  }

  /** A node inside a word has part of the word still to match. */
  lemma IndexInWord(s: State, x: Context, from: nat)
    requires Cut(s, x, from) && s.node.InMatch?
    ensures s.index < |Sequence(s.node.word)| && s.error == 0
  {
  }

  /** Arrays that agree after p agree on every later slice. */
  lemma TailSlices(b: bytes, b0: bytes, p: nat, endp: nat)
    requires p < endp <= |b| == |b0| && b[p + 1..] == b0[p + 1..]
    ensures b[p + 1..endp] == b0[p..endp][1..] && b[endp..] == b0[endp..]
    ensures b0[p..endp][0] == b0[p]
    ensures b[p] == b0[p] ==> b[p..] == b0[p..] && b[p..endp] == b0[p..endp]
  {
    assert b[endp..] == b[p + 1..][endp - p - 1..];
    assert b0[endp..] == b0[p + 1..][endp - p - 1..];
    assert b[p + 1..endp] == b[p + 1..][..endp - p - 1];
    assert b0[p..endp][1..] == b0[p + 1..][..endp - p - 1];
    assert b[p..] == [b[p]] + b[p + 1..];
    assert b0[p..] == [b0[p]] + b0[p + 1..];
    assert b[p..endp] == b[p..][..endp - p];
    assert b0[p..endp] == b0[p..][..endp - p];
  }
}
