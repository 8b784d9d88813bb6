/** Receiving a response: the loop of source/corehttp/core_http_client.cpp that reads from the
    transport and parses what it has read, and why its result does not depend on how the bytes
    of the response were cut by the transport. */
module HttpReceive {
  import opened Bytes
  import opened Llhttp
  import opened HttpContext
  import opened HttpSpan
  import opened HttpParser

  datatype HTTPStatus =
    | HTTPSuccess | HTTPNetworkError | HTTPPartialResponse | HTTPInsufficientMemory | HTTPNoResponse
    | HTTPSecurityAlertInvalidChunkHeader | HTTPSecurityAlertInvalidProtocolVersion | HTTPSecurityAlertInvalidStatusCode
    | HTTPSecurityAlertInvalidCharacter | HTTPSecurityAlertInvalidContentLength | HTTPParserInternalError

  /** processLlhttpError, for the errors a response can raise. */
  function ProcessLlhttpError(error: nat): HTTPStatus {
    if error == 0 then HTTPSuccess
    else if error == HPE_INVALID_CHUNK_SIZE then HTTPSecurityAlertInvalidChunkHeader
    else if error == HPE_INVALID_VERSION then HTTPSecurityAlertInvalidProtocolVersion
    else if error == HPE_INVALID_STATUS then HTTPSecurityAlertInvalidStatusCode
    else if error == HPE_INVALID_CONSTANT || error == HPE_LF_EXPECTED || error == HPE_INVALID_HEADER_TOKEN then
      HTTPSecurityAlertInvalidCharacter
    else if error == HPE_INVALID_CONTENT_LENGTH || error == HPE_UNEXPECTED_CONTENT_LENGTH then
      HTTPSecurityAlertInvalidContentLength
    else HTTPParserInternalError
  }

  /** getFinalResponseStatus */
  function FinalResponseStatus(parsing: Parsing, totalReceived: nat, bufferLen: nat): HTTPStatus {
    match parsing
    case HTTP_PARSING_NONE => HTTPNoResponse
    case HTTP_PARSING_INCOMPLETE => if totalReceived == bufferLen then HTTPInsufficientMemory else HTTPPartialResponse
    case HTTP_PARSING_COMPLETE => HTTPSuccess
  }

  /** One call of the transport: an error, or at most so many bytes; late tells whether the time
      allowed without data has passed. */
  datatype Turn = Broken | Ready(most: nat, late: bool)

  /** A server that has a stream of bytes to send, and the behaviour of the coming calls. */
  class Transport {
    var stream: bytes
    var turns: seq<Turn>

    constructor (stream: bytes, turns: seq<Turn>)
      ensures this.stream == stream && this.turns == turns
    {
      this.stream := stream;
      this.turns := turns;
    }

    /** recv into buffer[at..]; a negative count is an error. Once the turns are used up, there is
        no data in time. */
    method Recv(buffer: array<byte>, at: nat) returns (count: int, late: bool)
      requires at <= buffer.Length
      modifies this, buffer
      ensures turns == if old(turns) == [] then [] else old(turns[1..])
      ensures old(turns) == [] ==> count == 0 && late
      ensures old(turns) != [] && old(turns[0]).Broken? ==> count < 0
      ensures old(turns) != [] && old(turns[0]).Ready? ==>
                && late == old(turns[0]).late
                && count == Least(old(turns[0]).most, Least(buffer.Length - at, |old(stream)|))
      ensures buffer[..at] == old(buffer[..at])
      ensures 0 <= count ==> count <= |old(stream)| && at + count <= buffer.Length
      ensures 0 <= count ==> buffer[at..at + count] == old(stream)[..count] && stream == old(stream)[count..]
      ensures count < 0 ==> stream == old(stream)
    {
      if turns == [] {
        assert stream[0..] == stream;
        return 0, true;
      }
      var turn := turns[0];
      turns := turns[1..];
      if turn.Broken? {
        return -1, false;
      }
      late := turn.late;
      var n := Least(turn.most, Least(buffer.Length - at, |stream|));
      var i := 0;
      while i < n
        invariant i <= n && stream == old(stream) && turns == old(turns[1..])
        invariant buffer[..at] == old(buffer[..at])
        invariant buffer[at..at + i] == stream[..i]
      {
        buffer[at + i] := stream[i];
        i := i + 1;
        assert buffer[at..at + i] == buffer[at..at + i - 1] + [buffer[at + i - 1]];
      }
      stream := stream[n..];
      count := n;
    }
  }

  function Least(a: nat, b: nat): nat { if a < b then a else b }

  /** The state before anything is received. */
  function Fresh(head: bool): System {
    System(Init(head), NEW_CONTEXT)
  }

  lemma FreshInv(head: bool)
    ensures Inv(Fresh(head).parser) && SpanOf(Init(head)).None? && Cut(Init(head), NEW_CONTEXT, 0)
  {
    hide Sequence;
  }

  /** What the bytes t make of a fresh parser and response. */
  function Parsed(head: bool, t: bytes): System {
    FreshInv(head);
    AbsorbAll(Fresh(head), t)
  }

  /** The parser and the response reflect the first n bytes of t. */
  ghost predicate Reflects(parser: Parser, t: bytes, n: nat)
    reads parser, parser.data, parser.data.buffer
  {
    && n <= |t| && parser.Ready(n)
    && parser.State() == Parsed(parser.data.isHeadResponse, t[..n]).parser
    && (parser.error == 0 ==> parser.Current(n) == Parsed(parser.data.isHeadResponse, t[..n]))
  }

  lemma ParsedMore(head: bool, a: bytes, b: bytes)
    ensures Inv(Parsed(head, a).parser)
    ensures Parsed(head, a + b) == AbsorbAll(Parsed(head, a), b)
    ensures Parsed(head, a).parser.error != 0 ==> Parsed(head, a + b).parser == Parsed(head, a).parser
  {
    hide AbsorbAll, Inv;
    FreshInv(head);
    SplitInvariance(Fresh(head), a, b);
    if Parsed(head, a).parser.error != 0 {
      ErrorStays(Parsed(head, a), b);
    }
  }

  /** parseHttpResponse: parse the bytes received last. */
  method ParseHttpResponse(parser: Parser, cursor: nat, len: nat, ghost t: bytes) returns (status: HTTPStatus)
    requires cursor + len <= parser.data.buffer.Length && cursor + len <= |t|
    requires Reflects(parser, t, cursor) && parser.data.buffer[cursor..cursor + len] == t[cursor..cursor + len]
    modifies parser, parser.data, parser.data.buffer
    ensures Reflects(parser, t, cursor + len)
    ensures status == ProcessLlhttpError(parser.error)
    ensures parser.data.buffer[cursor + len..] == old(parser.data.buffer[cursor + len..])
  {
    hide AbsorbAll, Parsed, Inv, SpanOf, Cut, Begun;
    var head := parser.data.isHeadResponse;
    assert t[..cursor] + t[cursor..cursor + len] == t[..cursor + len];
    ParsedMore(head, t[..cursor], t[cursor..cursor + len]);
    if parser.error != 0 {
      ErrorStays(parser.Current(cursor), t[cursor..cursor + len]);
    }
    parser.Execute(cursor, cursor + len);
    status := ProcessLlhttpError(parser.error);
  }

  // ---- one response on the stream ----

  /** t is one response: parsing is complete at its last byte and not before. */
  ghost predicate OneResponse(head: bool, t: bytes) {
    && Parsed(head, t).parser.error == 0
    && Parsed(head, t).context.parsing == HTTP_PARSING_COMPLETE
    && (forall n | 0 <= n < |t| :: Parsed(head, t[..n]).context.parsing != HTTP_PARSING_COMPLETE)
  }

  /** How many bytes the transport is willing to hand out before it fails or the time is up. */
  function Offered(turns: seq<Turn>): nat {
    if turns == [] || turns[0].Broken? || (turns[0].most == 0 && turns[0].late) then 0
    else turns[0].most + Offered(turns[1..])
  }

  lemma PrefixSound(head: bool, t: bytes, n: nat)
    requires n <= |t| && Parsed(head, t).parser.error == 0
    ensures Parsed(head, t[..n]).parser.error == 0
  {
    hide Parsed;
    assert t[..n] + t[n..] == t;
    ParsedMore(head, t[..n], t[n..]);
  }

  lemma ResponseAt(head: bool, t: bytes, n: nat)
    requires n <= |t| && OneResponse(head, t)
    ensures Parsed(head, t[..n]).parser.error == 0
    ensures Parsed(head, t[..n]).context.parsing == HTTP_PARSING_COMPLETE <==> n == |t|
  {
    hide Parsed;
    PrefixSound(head, t, n);
    assert t[..|t|] == t;
  }

  lemma FreshReflects(parser: Parser, t: bytes)
    requires parser.State() == Init(parser.data.isHeadResponse) && parser.spanPos == None
    requires parser.data.View(0) == NEW_CONTEXT
    ensures Reflects(parser, t, 0)
  {
    hide SpanOf, Cut, Inv;
    FreshInv(parser.data.isHeadResponse);
    assert t[..0] == [];
  }

  /** A parser and a response that nothing has been fed to. */
  ghost predicate IsFresh(parser: Parser)
    reads parser, parser.data, parser.data.buffer
  {
    && parser.State() == Init(parser.data.isHeadResponse) && parser.spanPos == None
    && parser.data.View(0) == NEW_CONTEXT
  }

  /** What one turn of the loop guarantees for a stream t of one response that fits the buffer, of which
      n bytes have been received: offered is what the transport still offers, and goal what it offered at first. */
  ghost predicate OnTheWay(t: bytes, n: nat, recv: bool, status: HTTPStatus, offered: nat, goal: nat) {
    && (recv ==> n + offered >= Least(|t|, goal))
    && (!recv && goal >= |t| ==> n == |t|)
    && (n == |t| ==> status != HTTPNetworkError)
  }

  /** The next turn keeps a response on its way. */
  lemma TurnOnTheWay(t: bytes, n: nat, status: HTTPStatus, turns: seq<Turn>, goal: nat, room: nat, count: int,
                     late: bool, status': HTTPStatus, recv': bool)
    requires OnTheWay(t, n, true, status, Offered(turns), goal) && n < |t| && |t| - n <= room
    requires TurnRead(turns, room, |t| - n, count, late)
    requires recv' <==> count >= 0 && (count > 0 || !late) && n + count < |t|
    requires count >= 0 ==> status' != HTTPNetworkError
    ensures OnTheWay(t, if count < 0 then n else n + count, recv', status',
                     Offered(if turns == [] then [] else turns[1..]), goal)
  {
  }

  /** What receiving a stream t leads to. */
  ghost predicate Outcome(parser: Parser, t: bytes, offered: nat, status: HTTPStatus, n: nat)
    reads parser, parser.data, parser.data.buffer
  {
    && n <= parser.data.buffer.Length && Reflects(parser, t, n)
    && (status == HTTPNetworkError
        || status == (if parser.error != 0 then ProcessLlhttpError(parser.error)
                      else FinalResponseStatus(parser.data.parsing, n, parser.data.buffer.Length)))
    && var head := parser.data.isHeadResponse;
       OneResponse(head, t) && |t| <= parser.data.buffer.Length ==>
         && (status == HTTPSuccess <==> n == |t|)
         && (status == HTTPSuccess ==> parser.data.View(|t|) == Parsed(head, t).context)
         && (offered >= |t| ==> status == HTTPSuccess)
  }

  /** Success means that what has been parsed is a complete response without an error. */
  lemma SuccessComplete(parser: Parser, t: bytes, offered: nat, status: HTTPStatus, n: nat)
    requires Outcome(parser, t, offered, status, n) && status == HTTPSuccess
    ensures n <= |t|
    ensures var v := Parsed(parser.data.isHeadResponse, t[..n]);
            v.parser.error == 0 && v.context.parsing == HTTP_PARSING_COMPLETE
  {
    hide Parsed, OneResponse, Begun, Cut, SpanOf, Inv;
  }

  lemma ParsingReflected(parser: Parser, t: bytes, n: nat)
    requires Reflects(parser, t, n) && OneResponse(parser.data.isHeadResponse, t)
    ensures parser.error == 0 && (parser.data.parsing == HTTP_PARSING_COMPLETE <==> n == |t|)
  {
    hide Parsed, Cut, SpanOf, Begun, Inv, OneResponse, AbsorbAll;
    ResponseAt(parser.data.isHeadResponse, t, n);
  }

  /** The state between two turns: n bytes of the stream t have been received and parsed. */
  ghost predicate Between(transport: Transport, parser: Parser, t: bytes, status: HTTPStatus, n: nat, recv: bool,
                          goal: nat)
    reads transport, parser, parser.data, parser.data.buffer
  {
    && n <= parser.data.buffer.Length && Reflects(parser, t, n)
    && n <= |t| && transport.stream == t[n..]
    && (status == HTTPNetworkError || status == ProcessLlhttpError(parser.error))
    && (recv ==> status == HTTPSuccess && parser.data.parsing != HTTP_PARSING_COMPLETE)
    && (OneResponse(parser.data.isHeadResponse, t) && |t| <= parser.data.buffer.Length ==>
          OnTheWay(t, n, recv, status, Offered(transport.turns), goal))
  }

  lemma Started(transport: Transport, parser: Parser)
    requires IsFresh(parser)
    ensures Between(transport, parser, transport.stream, HTTPSuccess, 0, true, Offered(transport.turns))
  {
    FreshReflects(parser, transport.stream);
    hide Reflects;
  }

  /** The end of the loop gives the outcome. */
  lemma Concluded(transport: Transport, parser: Parser, t: bytes, offered: nat, status: HTTPStatus, n: nat,
                  final: HTTPStatus)
    requires Between(transport, parser, t, status, n, false, offered)
    requires final ==
             if status == HTTPSuccess then FinalResponseStatus(parser.data.parsing, n, parser.data.buffer.Length)
             else status
    ensures Outcome(parser, t, offered, final, n)
  {
    hide Parsed, Cut, SpanOf, Begun, Inv, OneResponse, AbsorbAll;
    var head := parser.data.isHeadResponse;
    if OneResponse(head, t) {
      ResponseAt(head, t, n);
      assert t[..|t|] == t;
    }
  }

  /** What the loop continues with, after a turn that read count bytes. */
  ghost predicate TurnRead(turns: seq<Turn>, room: nat, left: nat, count: int, late: bool) {
    && (turns == [] ==> count == 0 && late)
    && (turns != [] && turns[0].Broken? ==> count < 0)
    && (turns != [] && turns[0].Ready? ==> late == turns[0].late && count == Least(turns[0].most, Least(room, left)))
  }

  /** Reading after the n bytes parsed so far leaves what they led to. */
  method ReadMore(transport: Transport, parser: Parser, n: nat, ghost t: bytes) returns (count: int, late: bool)
    requires n <= parser.data.buffer.Length && n <= |t| && transport.stream == t[n..] && Reflects(parser, t, n)
    modifies transport, parser.data.buffer
    ensures Reflects(parser, t, n)
    ensures transport.turns == if old(transport.turns) == [] then [] else old(transport.turns[1..])
    ensures TurnRead(old(transport.turns), parser.data.buffer.Length - n, |t| - n, count, late)
    ensures count < 0 ==> transport.stream == t[n..]
    ensures 0 <= count ==>
              && n + count <= |t| && n + count <= parser.data.buffer.Length && transport.stream == t[n + count..]
              && parser.data.buffer[n..n + count] == t[n..n + count]
  {
    hide Least, Parsed, Cut, SpanOf, Begun, Inv;
    ghost var x := parser.data.View(n);
    count, late := transport.Recv(parser.data.buffer, n);
    assert parser.data.View(n) == x;
    if count >= 0 {
      assert t[n..][..count] == t[n..n + count] && t[n..][count..] == t[n + count..];
    }
  }

  /** Whether there is another turn. */
  predicate GoesOn(status: HTTPStatus, timeoutReached: bool, parsing: Parsing, n: nat, bufferLen: nat) {
    status == HTTPSuccess && !timeoutReached && parsing != HTTP_PARSING_COMPLETE && n < bufferLen
  }

  /** One turn of the loop: read what there is, and parse it. */
  method ReceiveOnce(transport: Transport, parser: Parser, before: HTTPStatus, received: nat, ghost t: bytes,
                     ghost goal: nat)
      returns (status: HTTPStatus, totalReceived: nat, shouldRecv: bool)
    requires Between(transport, parser, t, before, received, true, goal)
    modifies transport, parser, parser.data, parser.data.buffer
    ensures Between(transport, parser, t, status, totalReceived, shouldRecv, goal)
    ensures shouldRecv ==> |transport.turns| < old(|transport.turns|)
  {
    hide *;
    BetweenParts(transport, parser, t, before, received, goal);
    ghost var turns := transport.turns;
    var timeoutReached := false;
    var currentReceived, late := ReadMore(transport, parser, received, t);
    status, totalReceived := before, received;
    if currentReceived < 0 {
      status := HTTPNetworkError;
    } else if currentReceived > 0 || late {
      timeoutReached := currentReceived == 0;
      status := ParseHttpResponse(parser, received, currentReceived, t);
      totalReceived := received + currentReceived;
    }
    shouldRecv := GoesOn(status, timeoutReached, parser.data.parsing, totalReceived, parser.data.buffer.Length);
    ghost var whole := OneResponse(parser.data.isHeadResponse, t) && |t| <= parser.data.buffer.Length;
    if whole {
      ParsingReflected(parser, t, totalReceived);
    }
    TurnEnds(t, parser.data.buffer.Length, before, received, goal, turns, currentReceived, late, timeoutReached, status,
             totalReceived, shouldRecv, parser.error, parser.data.parsing, whole);
    BetweenIs(transport, parser, t, status, totalReceived, shouldRecv, goal);
  }

  lemma BetweenParts(transport: Transport, parser: Parser, t: bytes, status: HTTPStatus, n: nat, goal: nat)
    requires Between(transport, parser, t, status, n, true, goal)
    ensures n <= parser.data.buffer.Length && n <= |t| && transport.stream == t[n..] && Reflects(parser, t, n)
    ensures status == HTTPSuccess == ProcessLlhttpError(parser.error) && parser.data.parsing != HTTP_PARSING_COMPLETE
    ensures OneResponse(parser.data.isHeadResponse, t) && |t| <= parser.data.buffer.Length ==>
              n < |t| && OnTheWay(t, n, true, status, Offered(transport.turns), goal)
  {
    hide Reflects, OneResponse, OnTheWay, ProcessLlhttpError;
    if OneResponse(parser.data.isHeadResponse, t) {
      ParsingReflected(parser, t, n);
    }
  }

  /** The end of a turn: whether there is another, and that a response stays on its way. */
  lemma TurnEnds(t: bytes, bufferLen: nat, before: HTTPStatus, received: nat, goal: nat, turns: seq<Turn>, count: int,
                 late: bool,
                 timeout: bool, status: HTTPStatus, n: nat, recv: bool, error: nat, parsing: Parsing, whole: bool)
    requires received <= bufferLen && received <= |t| && n == (if count < 0 then received else received + count)
    requires TurnRead(turns, bufferLen - received, |t| - received, count, late)
             && (count >= 0 ==> (timeout <==> count == 0 && late))
    requires if count < 0 then status == HTTPNetworkError
             else if count > 0 || late then status == ProcessLlhttpError(error) else status == before == HTTPSuccess
    requires recv == GoesOn(status, timeout, parsing, n, bufferLen)
    requires whole ==> received < |t| <= bufferLen && OnTheWay(t, received, true, before, Offered(turns), goal)
    requires whole ==> error == 0 && (parsing == HTTP_PARSING_COMPLETE <==> n == |t|)
    ensures recv ==> |if turns == [] then [] else turns[1..]| < |turns|
    ensures recv ==> status == HTTPSuccess && parsing != HTTP_PARSING_COMPLETE
    ensures whole ==> OnTheWay(t, n, recv, status, Offered(if turns == [] then [] else turns[1..]), goal)
  {
    hide OnTheWay, Offered, Least;
    if whole {
      assert n <= |t| by { TurnSize(turns, bufferLen - received, |t| - received, count, late); }
      TurnOnTheWay(t, received, before, turns, goal, bufferLen - received, count, late, status, recv);
    }
  }

  lemma TurnSize(turns: seq<Turn>, room: nat, left: nat, count: int, late: bool)
    requires TurnRead(turns, room, left, count, late)
    ensures count <= left
  {
  }

  lemma BetweenIs(transport: Transport, parser: Parser, t: bytes, status: HTTPStatus, n: nat, recv: bool, goal: nat)
    requires n <= parser.data.buffer.Length && Reflects(parser, t, n) && n <= |t| && transport.stream == t[n..]
    requires status == HTTPNetworkError || status == ProcessLlhttpError(parser.error)
    requires recv ==> status == HTTPSuccess && parser.data.parsing != HTTP_PARSING_COMPLETE
    requires OneResponse(parser.data.isHeadResponse, t) && |t| <= parser.data.buffer.Length ==>
               OnTheWay(t, n, recv, status, Offered(transport.turns), goal)
    ensures Between(transport, parser, t, status, n, recv, goal)
  {
    hide Reflects, OneResponse, OnTheWay, Offered, ProcessLlhttpError;
  }

  /** receiveAndParseHttpResponse, on a parser and a response that are fresh. Whatever the turns of
      the transport, a stream that is one response which fits the buffer ends in success exactly
      if all of it was received, and then the response depends on the stream alone. */
  method ReceiveAndParse(transport: Transport, parser: Parser) returns (status: HTTPStatus, totalReceived: nat)
    requires IsFresh(parser)
    modifies transport, parser, parser.data, parser.data.buffer
    ensures Outcome(parser, old(transport.stream), Offered(old(transport.turns)), status, totalReceived)
  {
    hide *;
    var buffer := parser.data.buffer;
    ghost var t, head, goal := transport.stream, parser.data.isHeadResponse, Offered(transport.turns);
    Started(transport, parser);
    status, totalReceived := HTTPSuccess, 0;
    var shouldRecv := true;
    while shouldRecv
      invariant Between(transport, parser, t, status, totalReceived, shouldRecv, goal)
      decreases shouldRecv, |transport.turns|
    {
      status, totalReceived, shouldRecv := ReceiveOnce(transport, parser, status, totalReceived, t, goal);
    }
    ghost var last := status;
    if status == HTTPSuccess {
      status := FinalResponseStatus(parser.data.parsing, totalReceived, buffer.Length);
    }
    Concluded(transport, parser, t, goal, last, totalReceived, status);
  }
}
