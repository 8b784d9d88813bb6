/** The response being assembled by the parser callbacks of
    source/corehttp/core_http_client.cpp, as a value, and the effect of each callback. */
module HttpContext {
  import opened Bytes
  import opened Llhttp

  datatype Parsing = HTTP_PARSING_NONE | HTTP_PARSING_INCOMPLETE | HTTP_PARSING_COMPLETE

  /** A header as it is reported to the application callback. */
  datatype Reported = Reported(field: bytes, value: bytes, statusCode: nat)

  /** HTTPParsingContext_t and HTTPResponse_t without the cursor and headersLen, which depend on how
      the input was cut. Locations are indices into buf, the bytes parsed so far. */
  datatype Context = Context(parsing: Parsing, statusCode: nat, headers: Option<nat>,
                             field: Option<nat>, fieldLen: nat, value: Option<nat>, valueLen: nat,
                             headerCount: nat, reported: seq<Reported>,
                             contentLength: nat, closeFlag: bool, keepAliveFlag: bool,
                             body: Option<nat>, bodyLen: nat, completions: nat, buf: bytes)

  const NEW_CONTEXT := Context(HTTP_PARSING_NONE, 0, None, None, 0, None, 0, 0, [], 0, false, false, None, 0, 0, [])

  const SIZE_T_MODULUS: nat := 0x1_0000_0000

  function Slice(b: bytes, loc: nat, len: nat): bytes {
    if loc + len <= |b| then b[loc..loc + len] else []
  }

  /** processCompleteHeader */
  function CompleteHeader(x: Context): Context {
    if x.field.Some? && x.value.Some? then
      x.(headerCount := x.headerCount + 1,
         reported := x.reported + [Reported(Slice(x.buf, x.field.value, x.fieldLen),
                                            Slice(x.buf, x.value.value, x.valueLen), x.statusCode)],
         field := None, fieldLen := 0, value := None, valueLen := 0)
    else x
  }

  function OnStatus(x: Context, code: nat): Context {
    x.(field := None, fieldLen := 0, value := None, valueLen := 0, statusCode := code)
  }

  function OnHeaderField(x: Context, loc: nat, len: nat): Context {
    var y := CompleteHeader(x.(headers := if x.headers.None? then Some(loc) else x.headers));
    if y.field.None? then y.(field := Some(loc), fieldLen := len) else y.(fieldLen := y.fieldLen + len)
  }

  function OnHeaderValue(x: Context, loc: nat, len: nat): Context {
    if x.value.None? then x.(value := Some(loc), valueLen := len) else x.(valueLen := x.valueLen + len)
  }

  /** The bytes of b after copying n bytes from src down to dest. */
  function Moved(b: bytes, dest: nat, src: nat, n: nat): (r: bytes)
    ensures |r| == |b|
  {
    if dest <= src && src + n <= |b| then b[..dest] + b[src..src + n] + b[dest + n..] else b
  }

  function OnBody(x: Context, loc: nat, len: nat): Context {
    var y := if x.body.None? then x.(body := Some(loc), bodyLen := 0) else x;
    var next := y.body.value + y.bodyLen;
    y.(buf := if loc > next then Moved(y.buf, next, loc, len) else y.buf, bodyLen := y.bodyLen + len)
  }

  /** A callback for len bytes at loc of a span. */
  function OnPiece(x: Context, k: Kind, loc: nat, len: nat): Context {
    match k
    case Status(code) => OnStatus(x, code)
    case Field => OnHeaderField(x, loc, len)
    case Value => OnHeaderValue(x, loc, len)
    case Body => OnBody(x, loc, len)
  }

  function OnHeadersComplete(x: Context, contentLength: nat, flags: Flags): Context {
    var y := x.(contentLength := if contentLength != MAX_UINT64 then contentLength % SIZE_T_MODULUS else 0,
                closeFlag := x.closeFlag || flags.close,
                keepAliveFlag := x.keepAliveFlag || flags.keepAlive);
    CompleteHeader(y)
  }

  /** The effect of one item, when the byte being fed stands at p. */
  function Apply(x: Context, it: Item, p: nat): Context {
    match it
    case Begin => x.(parsing := HTTP_PARSING_INCOMPLETE)
    case Data(k) => OnPiece(x, k, p, 1)
    case End(k, after) => OnPiece(x, k, p + after, 0)
    case HeadersDone(n, flags) => OnHeadersComplete(x, n, flags)
    case Done => x.(parsing := HTTP_PARSING_COMPLETE, completions := x.completions + 1)
  }

  function ApplyAll(x: Context, items: seq<Item>, p: nat): Context
    decreases |items|
  {
    if items == [] then x else ApplyAll(Apply(x, items[0], p), items[1..], p)
  }

  function Grow(x: Context, c: byte): Context {
    x.(buf := x.buf + [c])
  }

  // ---- parser and response together ----

  datatype System = System(parser: State, context: Context)

  /** Feeding one byte: dispatches until the byte is consumed or an error is raised. */
  function Absorb(x: System, c: byte): (r: System)
    requires Inv(x.parser)
    ensures Inv(r.parser) && |r.context.buf| == |x.context.buf| + 1
    decreases Rank(x.parser.node)
  {
    if x.parser.error != 0 then System(x.parser, Grow(x.context, c))
    else
      StepKeeps(x.parser, c);
      var o := Step(x.parser, c);
      var p := |x.context.buf|;
      if o.eaten || o.s.error != 0 then
        ApplyAllLength(Grow(x.context, c), o.items, p);
        System(o.s, ApplyAll(Grow(x.context, c), o.items, p))
      else
        ApplyAllLength(x.context, o.items, p);
        Absorb(System(o.s, ApplyAll(x.context, o.items, p)), c)
  }

  function AbsorbAll(x: System, t: bytes): (r: System)
    requires Inv(x.parser)
    ensures Inv(r.parser) && |r.context.buf| == |x.context.buf| + |t|
    decreases |t|
  {
    if t == [] then x else AbsorbAll(Absorb(x, t[0]), t[1..])
  }

  lemma PieceLength(x: Context, k: Kind, loc: nat, n: nat)
    ensures |OnPiece(x, k, loc, n).buf| == |x.buf|
  {
    hide Slice, Moved, CompleteHeader;
    if k == Field {
      CompleteLength(x.(headers := if x.headers.None? then Some(loc) else x.headers));
    }
  }

  lemma CompleteLength(x: Context)
    ensures |CompleteHeader(x).buf| == |x.buf|
  {
    hide Slice;
  }

  lemma ApplyLength(x: Context, it: Item, p: nat)
    ensures |Apply(x, it, p).buf| == |x.buf|
  {
    hide OnPiece, CompleteHeader;
    match it
    case Begin =>
    case Data(k) => PieceLength(x, k, p, 1);
    case End(k, after) => PieceLength(x, k, p + after, 0);
    case HeadersDone(n, flags) => HeadersLength(x, n, flags);
    case Done =>
  }

  lemma HeadersLength(x: Context, n: nat, flags: Flags)
    ensures |OnHeadersComplete(x, n, flags).buf| == |x.buf|
  {
    hide Slice;
  }

  lemma {:induction false} ApplyAllLength(x: Context, items: seq<Item>, p: nat)
    ensures |ApplyAll(x, items, p).buf| == |x.buf|
    decreases |items|
  {
    if items != [] {
      ApplyLength(x, items[0], p);
      ApplyAllLength(Apply(x, items[0], p), items[1..], p);
    }
  }

  /** Split invariance: feeding a then b is feeding their concatenation. */
  lemma {:induction false} SplitInvariance(x: System, a: bytes, b: bytes)
    requires Inv(x.parser)
    ensures AbsorbAll(x, a + b) == AbsorbAll(AbsorbAll(x, a), b)
    decreases |a|
  {
    if a == [] {
      assert a + b == b;
    } else {
      assert (a + b)[1..] == a[1..] + b;
      SplitInvariance(Absorb(x, a[0]), a[1..], b);
    }
  }

  // ---- extents ----

  /** Everything recorded so far lies before n. */
  predicate Within(x: Context, n: nat) {
    && (x.value.Some? ==> x.field.Some?)
    && (x.field.Some? ==> x.field.value + x.fieldLen <= n)
    && (x.value.Some? ==> x.value.value + x.valueLen <= n)
    && (x.body.Some? ==> x.body.value + x.bodyLen <= n)
    && n <= |x.buf|
  }

  lemma CompleteGrows(x: Context, n: nat, c: byte)
    requires Within(x, n)
    ensures CompleteHeader(Grow(x, c)) == Grow(CompleteHeader(x), c)
  {
    if x.field.Some? && x.value.Some? {
      SliceGrows(x.buf, x.field.value, x.fieldLen, c);
      SliceGrows(x.buf, x.value.value, x.valueLen, c);
    }
  }

  lemma SliceGrows(b: bytes, loc: nat, len: nat, c: byte)
    requires loc + len <= |b|
    ensures Slice(b + [c], loc, len) == Slice(b, loc, len)
  {
    assert (b + [c])[loc..loc + len] == b[loc..loc + len];
  }

  /** The byte at k after the move. */
  function MovedByte(b: bytes, dest: nat, src: nat, n: nat, k: nat): byte
    requires dest <= src && src + n <= |b| && k < |b|
  {
    if dest <= k < dest + n then b[k - dest + src] else b[k]
  }

  lemma MovedAt(b: bytes, dest: nat, src: nat, n: nat, k: nat)
    requires dest <= src && src + n <= |b| && k < |b|
    ensures Moved(b, dest, src, n)[k] == MovedByte(b, dest, src, n, k)
  {
  }

  lemma MovedIs(b: bytes, dest: nat, src: nat, n: nat, r: bytes)
    requires dest <= src && src + n <= |b| == |r|
    requires forall k | 0 <= k < |r| :: r[k] == MovedByte(b, dest, src, n, k)
    ensures r == Moved(b, dest, src, n)
  {
    forall k | 0 <= k < |r| ensures r[k] == Moved(b, dest, src, n)[k] {
      MovedAt(b, dest, src, n, k);
    }
    hide Moved;
  }

  lemma MovedGrows(b: bytes, dest: nat, src: nat, n: nat, c: byte)
    requires dest <= src && src + n <= |b|
    ensures Moved(b + [c], dest, src, n) == Moved(b, dest, src, n) + [c]
  {
    hide Moved;
    var r := Moved(b, dest, src, n) + [c];
    forall k | 0 <= k < |r| ensures r[k] == MovedByte(b + [c], dest, src, n, k) {
      if k < |b| {
        MovedAt(b, dest, src, n, k);
      }
    }
    MovedIs(b + [c], dest, src, n, r);
  }

  /** Moving two adjacent runs one after the other is moving them together. */
  lemma MovedJoins(b: bytes, dest: nat, src: nat, n: nat, m: nat)
    requires dest <= src && src + n + m <= |b|
    ensures Moved(Moved(b, dest, src, n), dest + n, src + n, m) == Moved(b, dest, src, n + m)
  {
    hide Moved;
    var mid := Moved(b, dest, src, n);
    var r := Moved(mid, dest + n, src + n, m);
    forall k | 0 <= k < |r| ensures r[k] == MovedByte(b, dest, src, n + m, k) {
      MovedAt(mid, dest + n, src + n, m, k);
      MovedAt(b, dest, src, n, if dest + n <= k < dest + n + m then k - dest + src else k);
    }
    MovedIs(b, dest, src, n + m, r);
  }

  lemma FieldGrows(x: Context, loc: nat, n: nat, c: byte)
    requires Within(x, loc) && loc + n <= |x.buf|
    ensures OnHeaderField(Grow(x, c), loc, n) == Grow(OnHeaderField(x, loc, n), c)
  {
    hide Slice, Moved;
    var h := x.(headers := if x.headers.None? then Some(loc) else x.headers);
    CompleteGrows(h, loc, c);
    assert Grow(h, c) == Grow(x, c).(headers := h.headers);
  }

  lemma BodyGrows(x: Context, loc: nat, n: nat, c: byte)
    requires Within(x, loc) && loc + n <= |x.buf|
    ensures OnBody(Grow(x, c), loc, n) == Grow(OnBody(x, loc, n), c)
  {
    hide Moved;
    var d := if x.body.None? then loc else x.body.value + x.bodyLen;
    var left, right := OnBody(Grow(x, c), loc, n), Grow(OnBody(x, loc, n), c);
    if loc > d {
      MovedGrows(x.buf, d, loc, n, c);
      assert left.buf == right.buf;
    } else {
      assert left.buf == right.buf;
    }
    assert left == right.(buf := left.buf);
  }

  /** A piece does not care for a byte that comes after it. */
  lemma PieceGrows(x: Context, k: Kind, loc: nat, n: nat, c: byte)
    requires Within(x, loc) && loc + n <= |x.buf|
    ensures OnPiece(Grow(x, c), k, loc, n) == Grow(OnPiece(x, k, loc, n), c)
  {
    hide OnHeaderField, OnBody;
    match k
    case Status(code) =>
    case Field => FieldGrows(x, loc, n, c);
    case Value =>
    case Body => BodyGrows(x, loc, n, c);
  }

  lemma BodyJoins(x: Context, loc: nat, n: nat, m: nat)
    requires Within(x, loc) && loc + n + m <= |x.buf|
    ensures OnBody(OnBody(x, loc, n), loc + n, m) == OnBody(x, loc, n + m)
  {
    hide Moved;
    var d := if x.body.None? then loc else x.body.value + x.bodyLen;
    var mid := OnBody(x, loc, n);
    assert mid.body == Some(d) || x.body.Some?;
    var last, whole := OnBody(mid, loc + n, m), OnBody(x, loc, n + m);
    if loc > d {
      MovedJoins(x.buf, d, loc, n, m);
      assert whole.buf == last.buf;
    } else {
      assert whole.buf == last.buf;
    }
    assert whole == last.(buf := whole.buf);
  }

  lemma FieldJoins(x: Context, loc: nat, n: nat, m: nat)
    requires Within(x, loc)
    ensures OnHeaderField(OnHeaderField(x, loc, n), loc + n, m) == OnHeaderField(x, loc, n + m)
  {
    hide Slice, Moved;
    var y := OnHeaderField(x, loc, n);
    assert y.headers.Some? && y.field.Some? && y.value.None?;
    hide CompleteHeader;
    assert y == OnHeaderField(x, loc, n + m).(fieldLen := y.fieldLen);
    assert CompleteHeader(y) == y by { FieldAlone(y); }
  }

  lemma FieldAlone(x: Context)
    requires x.value.None?
    ensures CompleteHeader(x) == x
  {
  }

  /** Two adjacent pieces of a span are one longer piece. */
  lemma PiecesJoin(x: Context, k: Kind, loc: nat, n: nat, m: nat)
    requires Within(x, loc) && loc + n + m <= |x.buf|
    ensures OnPiece(OnPiece(x, k, loc, n), k, loc + n, m) == OnPiece(x, k, loc, n + m)
  {
    hide OnHeaderField, OnBody;
    match k
    case Status(code) =>
    case Field => FieldJoins(x, loc, n, m);
    case Value =>
    case Body => BodyJoins(x, loc, n, m);
  }

  /** A piece stays within its end. */
  lemma PieceWithin(x: Context, k: Kind, loc: nat, n: nat)
    requires Within(x, loc) && loc + n <= |x.buf| && (k == Value ==> x.field.Some?)
    ensures Within(OnPiece(x, k, loc, n), loc + n)
    ensures |OnPiece(x, k, loc, n).buf| == |x.buf|
  {
    hide Moved, Slice;
  }

  /** A piece of the span has been recorded, so that an empty piece changes nothing. */
  predicate Begun(x: Context, k: Kind) {
    match k
    case Status(code) =>
      x.field.None? && x.fieldLen == 0 && x.value.None? && x.valueLen == 0 && x.statusCode == code
    case Field => x.headers.Some? && x.field.Some? && x.value.None?
    case Value => x.value.Some?
    case Body => x.body.Some?
  }

  lemma PieceBegun(x: Context, k: Kind, loc: nat, n: nat)
    requires Within(x, loc) && loc + n <= |x.buf|
    ensures Begun(OnPiece(x, k, loc, n), k)
  {
    hide Moved, Slice;
  }

  lemma EmptyPiece(x: Context, k: Kind, n: nat)
    requires Within(x, n) && Begun(x, k)
    ensures OnPiece(x, k, n, 0) == x
  {
    if k == Body && n > x.body.value + x.bodyLen {
      var d := x.body.value + x.bodyLen;
      assert x.buf[..d] + x.buf[n..n] + x.buf[d..] == x.buf;
    }
  }
}
