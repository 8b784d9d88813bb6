# Verification of the text and protocol code of SPM-Multi

A Dafny 4.11 model of the parts of the repository that read and write untrusted text: the JSON validator, search and
iterator (`source/core_json.cpp`), the incremental HTTP response path (`source/corehttp/llhttp.c`,
`source/corehttp/http.c`, `source/corehttp/core_http_client.cpp`), the decimal to binary conversion
(`source/strtod.c`), and the printers that have an inverse (`source/base64.c`, the request headers and the range header
of `source/corehttp/core_http_client.cpp`). `dafny verify dfyconfig.toml` checks all of it.

Code that moves an index, rewrites a buffer or updates an object is a method with a loop, an array or a class; each such
method is proved equal to a specification function, and the theorems are about those functions.

**JSON.** `JsonScan` holds the methods and, beside each, the function it computes. `JsonGrammar` is an independent
grammar of what the bracket loop really accepts, `JsonTree` the strict grammar of section 2 of RFC 8259 (with the
restrictions of the code: no `\u0000`, no unpaired surrogate escape). The validator accepts exactly the relaxed grammar
up to depth 32 (`JsonAccept`, `JsonExact`), every strict document is in it, the relaxation is real (`JsonRelaxed`), and
which documents are strict is a condition on the relaxed tree (`JsonStrict`). A partial buffer is completed by closing
its open brackets (`JsonPartial`), partial buffers are exactly the documents cut within the brackets they end with
(`JsonCut`), and too deep are exactly the buffers that begin like such a document beyond depth 32 (`JsonDeep`), so that
every status is said by the grammar. On strict documents search is lookup in the tree (`JsonLookup`) and iteration lists
the members (`JsonIterate`).

**HTTP.** `Llhttp` is the response half of the automaton as a step on one byte. `HttpContext` gives the callbacks'
effect as functions and the meaning of a parser and a response fed byte by byte (`AbsorbAll`). `HttpSpan` and `HttpBulk`
show that delivering a span in one piece, matching a word at once and consuming a body at once all agree with that.
`HttpParser` has the objects: `Response` with the callbacks, which move the body down in the shared buffer, and `Parser`
with `Execute`, which is proved to be `AbsorbAll`. Split invariance is then one lemma. `HttpReceive` adds the receive
loop over a transport that cuts the stream as it likes, fails or runs out of time. `HttpChunked` proves the numerals
and the in-place removal of chunk framing. `HttpHead`, `HttpHeadName`, `HttpHeadToken`, `HttpHeadCoding`,
`HttpHeadValue` and `HttpResponse` print whole responses (status line, headers in any order and spelling with lists of
connection options and transfer codings, lines that end with or without a carriage return, folded lines, bodies of known
length, chunked bodies, or no body) and prove that parsing gives them back, whatever the fragmentation. `HttpLastCoding`
says what the automaton takes for chunked, and `HttpFraming` compares where a body ends with section 3.3.3 of RFC 7230.

**strtod.** `StrtodDigits` is the digit loop with its dropped digits and sticky flag, `StrtodScale`, `StrtodError` and
`StrtodLoop` the 96-bit scaling with its truncation, `Double` the final rounding, which is exact, `Strtod` the whole
function with its error bound, and `StrtodCorrect` what that bound means for the result.

**Printers.** `Base64`, `RequestHeaders` (`HTTPRequestHeaders` over the caller's buffer) and `RangeHeader`.

Where the code differs from its documentation or from the standard, the model follows the code. The findings, each stated
below by the member that proves it: the validator accepts `[{}{}]` (`JsonRelaxed.AdjacentAccepted`); white space alone
is reported as partial and cannot be completed (`JsonPartial.PartialCompletes`); the status code stays 0 when the reason
phrase is empty (`HttpResponse.MessageRead`, through `ReportedCode`); a content length is cut to 32 bits in the response
(same lemma); a refused header may destroy the empty line that ended the request headers, although the length is kept
(`RequestHeaders.RefusedHeader`); a carriage return or a space in the method or the path breaks the request apart
(`RequestHeaders.BlockRead`, `RequestHeaders.RequestRead`); a response that switches protocols is reported as an error,
with or without a body (`HttpResponse.MessageRead`, `HttpFraming.SwitchingPaused`); a 1xx, 204 or 304 response that
announces a length or a coding waits for a body it cannot have (`HttpFraming.BodilessComplete`,
`HttpFraming.NotModifiedUnfinished`); a response whose body ends with the connection is never received with success,
since nothing calls `llhttp_finish` (`HttpFraming.OpenReceived`); `chunkedchunked` announces chunks, and chunked with a
tab or a comma behind it does not (`HttpLastCoding.CodingAgrees`, `HttpLastCoding.ChunkedTwice`,
`HttpLastCoding.ChunkedTab`); close with a tab behind it is no known option, although the optional white space of
RFC 7230 includes the tab (`HttpHeadToken.TabBehindOption`); a header value that is folded after it has begun is recorded
with its first line breaks in it and cut short, though the callback takes a second piece of a value for the rest of the
same line
(`HttpResponse.FoldedExact`); numbers from -1000000000 down need one byte more than the 10 that
`convertInt32ToAscii` asserts (`RangeHeader.TextLength`).

## Model

| member | source | states |
|---|---|---|
| JsonScan.SkipUtf8MultiByte | source/core_json.cpp:190-242 | The shifts and masks skip a multi-byte sequence exactly when MultiByteEnd says where it ends, and otherwise the index stays |
| JsonScan.SkipUtf8 | source/core_json.cpp:254-276 | One code point is skipped, ASCII or multi-byte, or the index stays |
| JsonScan.CountHighBits | source/core_json.cpp:101-113 | The shift loop counts the leading one bits |
| Utf8.EncodedIsSkipped | source/core_json.cpp:190-276 | The encoding of every Unicode scalar value is skipped exactly, and the accumulated value is that code point (section 3 of RFC 3629) |
| Utf8.SkippedIsEncoded | source/core_json.cpp:132-276 | Whatever is skipped is the shortest encoding of a Unicode scalar value |
| Utf8.Utf8Exact | source/core_json.cpp:254-276 | skipUTF8 succeeds if and only if a well-formed sequence stands at the index |
| JsonScan.SkipHexEscape | source/core_json.cpp:392-430 | A \u escape or a surrogate pair of escapes is skipped, and nothing else |
| JsonScan.SkipEscape | source/core_json.cpp:444-499 | Every escape the code lets through, the backslash before a control character included |
| JsonScan.SkipString | source/core_json.cpp:511-564 | A string is skipped to its closing quote or not at all |
| JsonScan.SkipNumber | source/core_json.cpp:806-850 | A number with its fraction and exponent is skipped |
| JsonScan.SkipAnyScalar | source/core_json.cpp:862-886 | A string, a literal or a number is skipped, looked for in that order, and otherwise the index stays |
| JsonText.ScalarSkipped | source/core_json.cpp:444-886 | Every scalar text of the grammar, strict or relaxed, followed by a delimiter is skipped exactly |
| JsonText.ScalarFound | source/core_json.cpp:444-886 | Every skipped scalar is a scalar text of the grammar |
| JsonScan.SkipSpaceAndComma | source/core_json.cpp:902-927 | A comma counts only if something other than a close bracket follows it |
| JsonScan.SkipArrayScalars | source/core_json.cpp:938-962 | The comma-separated scalars of an array, up to the first thing that is none |
| JsonScan.SkipObjectScalars | source/core_json.cpp:979-1026 | The comma-separated scalar members of an object, up to a bare key before a collection |
| JsonScan.SkipCollection | source/core_json.cpp:1073-1143 | The flat loop over a fixed stack of 32 brackets is the recursive run Brackets, status and end |
| JsonScan.Validate | source/core_json.cpp:1153-1196 | JSON_Validate returns ValidateStatus of the buffer |
| JsonAccept.CollRuns | source/core_json.cpp:1073-1143 | The bracket loop passes over every collection of the grammar that fits the stack, with any stack below it |
| JsonAccept.CollTooDeep | source/core_json.cpp:1095-1101 | A collection that does not fit ends in the depth error |
| JsonAccept.DocumentAccepted | source/core_json.cpp:1153-1196 | Every document of the relaxed grammar gives JSONSuccess up to depth 32 and JSONMaxDepthExceeded beyond |
| JsonExact.AcceptedIsDocument | source/core_json.cpp:1153-1196 | Every accepted buffer reads back as a document of the relaxed grammar of depth at most 32 |
| JsonExact.ValidatorExact | source/core_json.cpp:902-1196 | JSON_Validate returns JSONSuccess if and only if the buffer is a document of the relaxed grammar of depth at most 32 |
| JsonExact.DepthDecidesStatus | source/core_json.cpp:1095-1101 | All readings of one text are on the same side of the depth limit |
| JsonTree.StrictIsDocument | source/core_json.cpp:902-1196 | Every strict document is a document of the relaxed grammar with the same text and depth |
| JsonTree.StrictAccepted | source/core_json.cpp:1073-1196 | Every document printed from any JSON tree with any white space is accepted up to depth 32 and too deep beyond |
| JsonStrict.ValueOfStrict | source/core_json.cpp:902-1196 | A strict collection of the relaxed grammar has a strict reading, whose translation back is the collection itself |
| JsonStrict.StrictExact | source/core_json.cpp:902-1196 | A relaxed document is the translation of a strict one if and only if commas separate its neighbours, keys stand before the values of objects only, and no backslash stands before a control character |
| JsonStrict.StrictTexts | source/core_json.cpp:902-1196 | The strict texts among the accepted ones are exactly the texts of such documents |
| JsonRelaxed.AdjacentAccepted | source/core_json.cpp:1107-1119 | The text [{}{}] is accepted |
| JsonRelaxed.AdjacentIsNotStrict | source/core_json.cpp:1107-1119 | No strict document has that text, so the validator accepts more than the strict grammar |
| JsonPartial.PartialExtended | source/core_json.cpp:1086-1143 | A partial run goes on as before in a buffer extended by a close bracket, with the brackets it left open |
| JsonPartial.ClosesRun | source/core_json.cpp:1107-1119 | Closing every open bracket, innermost first, ends in success |
| JsonPartial.PartialCompletes | source/core_json.cpp:1073-1196 | Appending the matching close brackets to a partial buffer gives JSONSuccess if and only if the buffer has a byte that is not white space |
| JsonCut.ScalarsCut | source/core_json.cpp:1036-1053 | A run of scalars that ends at a bracket ends there also when the close brackets at the end of the buffer are cut off |
| JsonCut.BracketsCut | source/core_json.cpp:1073-1143 | The loop over a valid collection without some of its last brackets ends in JSONPartial |
| JsonCut.PartialExact | source/core_json.cpp:1073-1196 | A buffer with a byte that is not white space is partial if and only if some close brackets behind it make it valid |
| JsonCut.PartialIsCutDocument | source/core_json.cpp:1073-1196 | Such partial buffers are exactly the documents of the relaxed grammar of depth at most 32 without some of the close brackets they end with |
| JsonDeep.DeepColl | source/core_json.cpp:1086-1119 | A run that finds a bracket too many passes or enters a collection, which with closed brackets is one of the grammar, deeper than the limit if the bracket is in it |
| JsonDeep.DeepSame | source/core_json.cpp:1086-1119 | Buffers that agree up to the bracket that is too many are both too deep |
| JsonDeep.DeepExact | source/core_json.cpp:1086-1119 | The depth error is returned if and only if some beginning of the buffer is a document deeper than 32 without some of the close brackets it ends with |
| JsonDeep.StatusExact | source/core_json.cpp:1153-1196 | The status of every buffer follows from the grammar: empty, white space, document, cut document, begun too deep, or illegal |
| JsonSearch.NextKeyValuePair | source/core_json.cpp:1271-1325 | A key, a colon and a value are found with the key's text inside its quotes, or nothing |
| JsonSearch.ObjectSearch | source/core_json.cpp:1344-1394 | The loop finds the first member whose raw key is the query |
| JsonSearch.ArraySearch | source/core_json.cpp:1412-1461 | The loop finds the element with the given index |
| JsonSearch.MultiSearch | source/core_json.cpp:1528-1602 | Each key or index of the query is searched in the window of the value found before |
| JsonSearch.SearchConst | source/core_json.cpp:1655-1700 | The answer is the window of the value, with the quotes of a string taken off, and its type |
| JsonLookup.ValueSkipped | source/core_json.cpp:1216-1252 | The text of every strict value is skipped exactly |
| JsonLookup.ObjectLookup | source/core_json.cpp:1344-1394 | Searching an object of a strict document is looking up the first raw-equal key in the tree |
| JsonLookup.ArrayLookup | source/core_json.cpp:1412-1461 | Searching an array of a strict document is taking the element with that number in the tree |
| JsonLookup.PathSearched | source/core_json.cpp:1528-1602 | A path below a value is followed inside that value's window |
| JsonLookup.SearchRefinesLookup | source/core_json.cpp:1655-1700 | On a strict document, searching any path of keys and indices succeeds exactly if the path exists in the tree and returns that value's text and type; a missing path is not found, a too large index a bad parameter |
| JsonSearch.Iterate | source/core_json.cpp:1738-1846 | One call yields a pair and moves the two positions as IterateFrom says |
| JsonIterate.EntryYielded | source/core_json.cpp:1738-1788 | A call yields the first remaining member with its key, value and type and moves behind it |
| JsonIterate.NothingYielded | source/core_json.cpp:1738-1846 | With no member left a call reports JSONNotFound and changes nothing |
| JsonIterate.IteratorEnumerates | source/core_json.cpp:1795-1846 | From start = next = 0 the n-th call yields the n-th member of a strict collection, for every n, and JSONNotFound for ever after the last |
| Llhttp.StepKeeps | source/corehttp/llhttp.c:8596-13110 | Every dispatch of the automaton keeps its invariant and either consumes its byte, fails, or moves to a smaller rank, so the automaton cannot hang |
| HttpSpan.StepDisciplined | source/corehttp/llhttp.c:8596-13110 | Spans open before an unconsumed byte, report every byte consumed inside, and close once; a value is read only after its field |
| HttpContext.PiecesJoin | source/corehttp/core_http_client.cpp:722-980 | Two adjacent pieces of one span have the effect of one longer piece, memmove included |
| HttpContext.PieceGrows | source/corehttp/core_http_client.cpp:722-980 | A callback does not depend on bytes after its piece |
| HttpContext.SplitInvariance | source/corehttp/llhttp.c:14892-14924 | Feeding a and then b is feeding their concatenation: parser state, partial match, length, flags, error and response |
| HttpSpan.Dispatched | source/corehttp/llhttp.c:8596-14890 | A dispatch with span callbacks delayed to the end of the span agrees with byte by byte feeding |
| HttpSpan.FlushCut | source/corehttp/llhttp.c:14892-14924 | Delivering the open span at the end of a call leaves what byte by byte feeding leaves |
| HttpSpan.ErrorStays | source/corehttp/llhttp.c:14892-14900 | After an error further input changes nothing in the parser |
| HttpBulk.MatchedRun | source/corehttp/llhttp.c:7828-7922 | Bytes that continue a partial match only advance its index |
| HttpBulk.MatchFed | source/corehttp/llhttp.c:7828-7922 | A match that ends inside the input, matched or not, is the same as its single steps |
| HttpBulk.ConsumedRun | source/corehttp/llhttp.c:8677-8694 | Consuming part of a body at once is consuming it byte by byte |
| HttpBulk.BodyFed | source/corehttp/llhttp.c:9025-9042 | Consuming the rest of a body at once, with its callbacks, is consuming it byte by byte |
| HttpParser.MemMove | source/corehttp/core_http_client.cpp:957-966 | The bytes are copied down and everything else is kept |
| HttpParser.Response.ProcessCompleteHeader | source/corehttp/core_http_client.cpp:613-658 | A complete header is reported with its texts and forgotten; an incomplete one is kept |
| HttpParser.Response.OnStatus | source/corehttp/core_http_client.cpp:681-718 | The status code is recorded and the last header forgotten |
| HttpParser.Response.OnHeaderField | source/corehttp/core_http_client.cpp:722-775 | A field starts after the header before it is complete, or grows |
| HttpParser.Response.OnHeaderValue | source/corehttp/core_http_client.cpp:779-819 | A value starts or grows |
| HttpParser.Response.OnHeadersComplete | source/corehttp/core_http_client.cpp:823-908 | Length and connection flags are recorded and the last header is reported |
| HttpParser.Response.OnBody | source/corehttp/core_http_client.cpp:912-980 | The piece is moved to the end of the body, which grows by it; no byte at or after the end of the piece changes |
| HttpParser.Parser.MatchSequence | source/corehttp/llhttp.c:7828-7922 | The loop stops at the first byte that differs, at the end of the word, or at the end of the input with the index kept |
| HttpParser.Parser.Dispatch | source/corehttp/llhttp.c:8596-13110 | One label with its callbacks on the shared buffer; the unread input is not touched |
| HttpParser.Parser.ConsumeToward | source/corehttp/llhttp.c:9025-9042 | As much of a body as there is, at once; what follows it is not touched |
| HttpParser.Parser.Run | source/corehttp/llhttp.c:8596-14890 | The run over the input reaches what feeding its bytes one by one reaches, and touches nothing after it |
| HttpParser.Parser.Execute | source/corehttp/llhttp.c:14892-14924 | A call leaves parser and response as feeding its bytes one by one does, for every input, the error code included, and touches no byte after them |
| HttpReceive.ParseHttpResponse | source/corehttp/core_http_client.cpp:1157-1216 | After each call the parser and the response reflect all bytes of the stream so far |
| HttpReceive.ReceiveOnce | source/corehttp/core_http_client.cpp:2041-2100 | One turn of the loop: an error of the transport, no data, or data that is parsed |
| HttpReceive.ReceiveAndParse | source/corehttp/core_http_client.cpp:2009-2124 | For one response that fits the buffer the status is success exactly if all of it was received, and then every field of the response depends on its bytes alone, however the transport cut them |
| HttpChunked.MulAddExact | source/corehttp/llhttp.c:8261-8285 | The 64-bit accumulator is exact and reports an overflow if and only if the number does not fit |
| HttpChunked.ChunkSizeRun | source/corehttp/llhttp.c:8770-9024 | A chunk size is the number its hexadecimal digits write, or an error exactly above 2^64-1 |
| HttpChunked.ContentLengthRun | source/corehttp/llhttp.c:9444-9506 | A content length is the number its decimal digits write, or an error exactly above 2^64-1 |
| HttpChunked.BodyConserved | source/corehttp/llhttp.c:8677-8694 | At every point of a body the bytes delivered and the length still expected add up to the announced length, and the delivered bytes are those sent |
| HttpChunked.ChunkRun | source/corehttp/llhttp.c:8657-9024 | A chunk extends the body by its data and leads back to where a chunk is expected |
| HttpChunked.Dechunked | source/corehttp/core_http_client.cpp:912-980 | Removing chunk framing in place is a round trip: the body is the data of all chunks, the message is complete once, and what precedes the body is kept |
| HttpChunked.AllCounts | source/corehttp/core_http_client.cpp:984-999 | Completions are only ever added |
| HttpChunked.ChunkedResponse | source/corehttp/llhttp.c:8657-9024 | A response with a chunked body is one response, complete with its last byte and not before, with the data of its chunks as body |
| HttpHead.CodeRun | source/corehttp/llhttp.c:12720-12782 | The status code is the number its digits write |
| HttpHead.StatusRun | source/corehttp/llhttp.c:12635-13052 | A status line leads to its code and version in the parser, and to the code in the response if and only if there is a reason |
| HttpHeadName.NameRun | source/corehttp/llhttp.c:9738-10027 | Every name is read to its end, along the known words or past them |
| HttpHeadName.FieldRun | source/corehttp/llhttp.c:9722-10050 | A name and its colon are reported as one field, and the parser knows which of the special names it is, without regard to case |
| HttpHeadToken.TokensOfList | source/corehttp/llhttp.c:9230-9420 | The tokens of a list are those of its parts before and after a comma |
| HttpHeadToken.TokensOfOne | source/corehttp/llhttp.c:9230-9420 | A part is one token, in lower case, without the blanks before it and the spaces behind it |
| HttpHeadToken.TabBehindOption | source/corehttp/llhttp.c:9269-9295 | A tab behind close makes it another token |
| HttpHeadToken.TokensRun | source/corehttp/llhttp.c:9230-9420 | Reading any Connection value raises the flags for close, keep-alive and upgrade if and only if they are among its tokens |
| HttpHeadCoding.LastDecides | source/corehttp/llhttp.c:9507-9672 | In a list of codings only the part after the last comma decides |
| HttpHeadCoding.WordIsChunked | source/corehttp/llhttp.c:9507-9672 | The word chunked, in any case, with blanks before it and spaces behind it, is recognised |
| HttpHeadCoding.CodingsRun | source/corehttp/llhttp.c:9507-9672 | Any list of codings is read to its end, and chunks are announced if and only if its progress has come to the whole word there, which HttpLastCoding.ChunkedExact says apart from the reading |
| HttpLastCoding.ChunkedExact | source/corehttp/llhttp.c:9507-9672 | A list announces chunks if and only if what follows its last comma is white space and then the word chunked in any case, once or more often, each time with any number of spaces behind it |
| HttpLastCoding.CodingAgrees | source/corehttp/llhttp.c:9507-9672 | That is the case exactly when the last coding of the list is chunked, as long as no tab, no second word and no empty element follows the word, and only then |
| HttpLastCoding.ChunkedTwice | source/corehttp/llhttp.c:9507-9672 | The one coding chunkedchunked announces chunks |
| HttpLastCoding.ChunkedTab | source/corehttp/llhttp.c:9507-9672 | The coding chunked with a tab behind it does not |
| HttpHeadValue.LengthTextRun | source/corehttp/llhttp.c:9421-9506 | A length is the number its digits write, with any spaces behind them |
| HttpHeadValue.ValueRun | source/corehttp/llhttp.c:9113-9721 | The rest of a header, from its colon to the line after it and over all its folded lines, sets the flags and the length its name calls for and reports the value line by line; each folded line of connection options is a list of its own until one ends in a known option or goes on behind one, and of folded codings only the first line counts |
| HttpHeadValue.FoldsTogether | source/corehttp/core_http_client.cpp:779-822 | The lines of a folded value are recorded as one text that starts where the value starts and is as long as their texts together |
| HttpResponse.HeadersRun | source/corehttp/llhttp.c:9113-10050 | Any number of header lines is read in order, and nothing else changes than what they announce |
| HttpResponse.HeadRun | source/corehttp/llhttp.c:8596-13110 | A printed head leads from a fresh parser to the line feed that ends it, with the flags and length its headers announce |
| HttpResponse.HeadRead | source/corehttp/http.c:37-92 | That line feed leads to the body the head announces, or completes the message |
| HttpResponse.HeadReported | source/corehttp/core_http_client.cpp:613-908 | After the blank line the application has been told every header once, in order, with its exact name and the value recorded for it |
| HttpResponse.FoldedExact | source/corehttp/core_http_client.cpp:794-806 | The value recorded for a header is its written value if and only if it is not folded after it has begun |
| HttpResponse.FoldedExample | source/corehttp/core_http_client.cpp:794-806 | For the header "A: b" continued by a line " c", the application is told b and a line break |
| HttpResponse.FoldedLengthRefused | source/corehttp/llhttp.c:9155-9175 | A Content-Length that is continued on another line is refused as announced twice, wherever it stands in the head |
| HttpResponse.FramingOf | source/corehttp/http.c:37-92 | A head leads the parser to no body, a body of known length or chunks according to the flags, the length and the status code it has read |
| HttpFraming.FramingExact | source/corehttp/http.c:37-92 | The parser frames the body as section 3.3.3 of RFC 7230 asks if and only if it answers a HEAD request, or is a 1xx, 204 or 304 response that announces no body, or is another whose codings are read as chunked just when the last of them is |
| HttpFraming.FramingUnfolded | source/corehttp/http.c:37-92 | For codings on one line the last case means that no tab, second word or empty element follows the word chunked |
| HttpFraming.HeadCompletes | source/corehttp/http.c:48-91 | A head completes its response if and only if it answers a HEAD request, or announces no coding and no positive length and either a length of 0 or a status without a body |
| HttpFraming.BodilessComplete | source/corehttp/http.c:48-91 | A 1xx, 204 or 304 response, which has no body by the standard, is complete with its head if and only if it announces no length and no coding |
| HttpFraming.NotModifiedUnfinished | source/corehttp/http.c:48-91 | A 304 response with the header content-length: 5 is not complete with its blank line |
| HttpFraming.OpenRead | source/corehttp/llhttp.c:9054-9072 | A body that ends with the connection is gathered as it comes, and the response is never complete |
| HttpFraming.OpenReceived | source/corehttp/core_http_client.cpp:2009-2124 | Receiving such a response never succeeds |
| HttpResponse.SwitchRead | source/corehttp/http.c:37-92 | A response that switches protocols and announces no body is complete with its head, and is then reported as an error |
| HttpFraming.SwitchingPaused | source/corehttp/http.c:37-92 | A 101 response with connection: upgrade and upgrade: x is complete and reported as an internal error |
| HttpResponse.MessageRead | source/corehttp/core_http_client.cpp:613-999 | Parsing what is printed: every response with the body the parser expects is complete with its last byte and not before, and then status, headers in order, flags, length and body are those printed; it is one response without an error if and only if it does not switch protocols |
| HttpResponse.MessageReceived | source/corehttp/core_http_client.cpp:2009-2124 | Receiving a printed response that fits the buffer succeeds in whatever pieces it comes, and gives that response, unless it switches protocols, when it never succeeds |
| Double.ToDouble | source/strtod.c:33-63 | The pattern is the roundTiesToEven of mant * 2^(exp - 63) (section 4.3.1 of IEEE 754-2008) for every exponent, with subnormals, underflow, carry and overflow |
| StrtodScale.Normalize96 | source/strtod.c:67-93 | The word is shifted until its top bit is set, and the count is that of the shifts |
| StrtodScale.StepSums | source/strtod.c:247-261 | The truncated partial sums do not wrap and lose less than 2^20 |
| StrtodScale.Multiply | source/strtod.c:253-265 | One step gives W' with 0 <= W*M/2^72 - W' < 2^20 in 32 and 64 bit words that do not wrap |
| StrtodError.TableUp | source/strtod.c:224-229 | The multipliers for positive powers are their powers of ten within one part in 2^72 |
| StrtodError.TableDown | source/strtod.c:230-234 | The multipliers for negative powers are their powers of ten within one part in 2^72 |
| StrtodError.StepNear | source/strtod.c:241-268 | A step multiplies the value by its power of ten and adds at most 2^-70 of relative error |
| StrtodLoop.LowerEnough | source/strtod.c:241-268 | The word stays above 2^93 through all uses of one row |
| StrtodLoop.StepsBound | source/strtod.c:236-268 | There are at most 23 steps |
| StrtodLoop.Scale | source/strtod.c:200-269 | The scaled word stands for mantissa * 10^exponent within one part in 2^70 for each step, and exactly without any |
| StrtodDigits.DigitsAccounted | source/strtod.c:117-140 | For any number of digits the accumulator does not wrap, the digits are value * 10^dropped + rest, and the sticky flag is set if and only if the rest is not 0 |
| StrtodDigits.ReadDigits | source/strtod.c:117-140 | The loop reads the digits, counts the exponent and remembers the end |
| Strtod.CombinedMeans | source/strtod.c:183-198 | The two exponents are added and clamped at 345, even where the sign of the mantissa is taken for that of an absent exponent |
| Strtod.MantissaNear | source/strtod.c:270-272 | What is rounded is within one part in 2^62 of the scaled number |
| Strtod.OutOfRange | source/strtod.c:183-198 | Where the exponent is clamped the result is 0 or infinity, and so is the correct one |
| Strtod.Strtod | source/strtod.c:97-279 | The end of the number and its pattern: the rounding of a value within one part in 2^60 of the number written, and the exact rounding if nothing is scaled or dropped or the exponent is clamped |
| StrtodCorrect.NextToCorrect | source/strtod.c:97-279 | Such a pattern is at most one from the correct rounding of the number written |
| StrtodCorrect.CorrectWhenClear | source/strtod.c:97-279 | It is the correct rounding if the number is farther than one part in 2^60 from every halfway point between neighbouring patterns |
| StrtodCorrect.PatternNearCorrect | source/strtod.c:97-279 | Both hold of what strtod returns, and a correct rounding exists |
| Base64.EncodedLength | source/base64.c:174-177 | The announced length is that of the text and its terminating zero |
| Base64.Encode | source/base64.c:179-209 | The buffer holds the text and a zero, the result is the announced length, and nothing after it changes |
| Base64.DecodedLength | source/base64.c:126-169 | For any text the number of decoded bytes is what the count of characters says |
| Base64.DecodedLen | source/base64.c:111-124 | The announced length has room for the bytes and a zero, for any input |
| Base64.Decode | source/base64.c:126-169 | For any input the result counts the bytes before the zero, which fit the announced length, and nothing after it changes |
| Base64.RoundTrip | source/base64.c:111-209 | Decoding what was encoded gives back every byte (section 4 of RFC 4648), whatever follows the zero |
| RequestHeaders.BlockGrows | source/corehttp/core_http_client.cpp:1322-1418 | Writing a header over the empty line appends it to the list of headers |
| RequestHeaders.ManyHeaders | source/corehttp/core_http_client.cpp:1322-1418 | Any run of additions appends all headers in order |
| RequestHeaders.HttpHeaderStrncpy | source/corehttp/core_http_client.cpp:1273-1318 | The text is copied up to its first invalid character, and accepted if and only if there is none |
| RequestHeaders.HTTPRequestHeaders.AddHeader | source/corehttp/core_http_client.cpp:1322-1418 | Each status if and only if its cause; success appends the header, too little memory changes nothing, and an invalid character keeps the length, and the contents if and only if there was no empty line to write over or the first character of the field is invalid |
| RequestHeaders.RefusedHeader | source/corehttp/core_http_client.cpp:1322-1418 | A header with a valid field and an invalid value, refused where the block has headers, changes the block |
| RequestHeaders.RefusedExample | source/corehttp/core_http_client.cpp:1322-1418 | The header X with a carriage return as value does so right after the first headers of a GET request |
| RequestHeaders.HTTPRequestHeaders.WriteRequestLine | source/corehttp/core_http_client.cpp:1493-1565 | The request line is written if and only if it fits |
| RequestHeaders.HTTPRequestHeaders.Initialize | source/corehttp/core_http_client.cpp:1569-1662 | The first block is written if and only if it fits and the host is valid |
| RequestHeaders.LinesRead | source/corehttp/core_http_client.cpp:1322-1418 | Splitting the header lines recovers the headers in order |
| RequestHeaders.BlockRead | source/corehttp/core_http_client.cpp:1493-1662 | A block splits into its request line and its headers if and only if the method and the path hold no carriage return (section 3.2 of RFC 7230) |
| RequestHeaders.RequestRead | source/corehttp/core_http_client.cpp:1493-1662 | A block reads back as method, target, version and headers if and only if neither the method nor the path holds a carriage return or a space |
| RangeHeader.DigitsCanonical | source/corehttp/core_http_client.cpp:1220-1269 | The digits write the number and have no leading zero |
| RangeHeader.TextLength | source/corehttp/core_http_client.cpp:1220-1269 | The text fits eleven bytes, and the ten bytes that the program asks for if and only if the number is above -1000000000 |
| RangeHeader.ReverseRun | source/corehttp/core_http_client.cpp:1258-1266 | The digits are reversed in place |
| RangeHeader.ConvertInt32ToAscii | source/corehttp/core_http_client.cpp:1220-1269 | For every number but the smallest the text is the canonical decimal |
| RangeHeader.RangeReadBack | source/corehttp/core_http_client.cpp:1422-1489 | The text of every accepted pair reads back as the same one of the three forms of section 2.1 of RFC 7233, and fits 27 bytes |
| RangeHeader.RangeValue | source/corehttp/core_http_client.cpp:1422-1489 | The pieces written one after the other are that text |
| RangeHeader.AddRangeHeader | source/corehttp/core_http_client.cpp:1726-1787 | An accepted pair adds that header or changes nothing; the call is refused if and only if the pair is none of the three forms, is a suffix of INT32_MIN, or the headers claim to be longer than their buffer |

## Left out

- headersLen and pBufferCur: they depend on how the response was cut, so no property of them is stated.
- The texts of log messages, the checks of pointers for NULL and the `assert` macros are not modelled.
- Error runs of the parser: the error code is proved, not what had been reported before it, since a cut input may report part of a span that the whole input never reports.
- The request half of llhttp, strict mode, lenient flags, server-sent events, `llhttp_finish` (which nothing calls), trailers, and anything after the first message.
- The labels of the automaton are constructors of `Node` and its transitions the function `Step`; the goto of the source is the loop of `HttpParser.Parser.Run`. The words and bodies that the source handles at once are handled at once by the methods.
- HttpContext.SplitInvariance: the events are compared by their effect on the response, reported headers included, not as a list.
- HttpReceive.ReceiveAndParse: the clock and the transport are a script of turns, each of which fails or offers at most some bytes and says whether the time is up.
- HttpChunked.Dechunked: the trailer after the last chunk is empty.
- JsonLookup.SearchRefinesLookup: documents that only the relaxed grammar accepts are not searched, nor queries that are no path of keys and indices; both are refined down to the functions of `JsonSearch`.
- Strtod.Strtod: correct rounding of every input is not claimed, since the code does not promise it; a text is no longer than the largest object of a 32-bit program, so that the exponent of its mantissa does not wrap; the count of exponent digits, which is not used, is not bounded; characters are unsigned.
- StrtodDigits.ReadDigits: the sticky flag is a truth value, where the program collects the bits of the digits.
- RequestHeaders.HTTPRequestHeaders.Initialize: the lengths of the strings stand for themselves, as they do in the program, and the contents after a failure in the middle are not stated.
- RangeHeader.AddRangeHeader: the header of a failed addition cannot be invalid, so that case of `AddHeader` does not occur.
- HTTPClient_Send, HTTPClient_ReadHeader, the sockets, threads, menus, patches and game code around them: input, output, or no new reasoning.
- `strtoul`, `split`, `isValidBase64`, save checksums and error texts: only easy members.
